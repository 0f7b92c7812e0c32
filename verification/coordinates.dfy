/**
 * `has_valid_coord`, defined identically in scraper/build_gtfs.py and
 * scraper/report_stops.py, over a decimal reading of Python's `float()`.
 */
module Coordinates {
  import opened Wrappers
  import opened Text

  function Pow10(n: nat): (p: nat)
    ensures p >= 1
  {
    if n == 0 then 1 else 10 * Pow10(n - 1)
  }

  /** A parsed decimal: the digits read as one number `units`, `scale` of them after the point. */
  datatype Decimal = Decimal(negative: bool, units: nat, scale: nat)

  /** The number a decimal denotes. */
  function Value(d: Decimal): real {
    var m := d.units as real / Pow10(d.scale) as real;
    if d.negative then -m else m
  }

  /** Where `float()` is in its text: leading blanks, after a sign, whole digits, fraction digits, trailing blanks. */
  datatype Phase = Lead | Signed | Whole | Frac | Trail

  /**
   * Python's `float(s)` on decimal text, read left to right from position `i`:
   * optional surrounding whitespace, an optional sign, ASCII digits with at most one point,
   * at least one digit in all.
   */
  function Scan(s: string, i: nat, phase: Phase, negative: bool, units: nat, scale: nat, digits: nat): Option<Decimal>
    requires i <= |s|
    decreases |s| - i
  {
    if i == |s| then
      if digits > 0 then Some(Decimal(negative, units, scale)) else None
    else
      var c := s[i];
      match phase
      case Lead =>
        if IsSpace(c) then Scan(s, i + 1, Lead, negative, units, scale, digits)
        else if c == '-' || c == '+' then Scan(s, i + 1, Signed, c == '-', 0, 0, 0)
        else if IsDigit(c) then Scan(s, i + 1, Whole, false, DigitOf(c), 0, 1)
        else if c == '.' then Scan(s, i + 1, Frac, false, 0, 0, 0)
        else None
      case Signed =>
        if IsDigit(c) then Scan(s, i + 1, Whole, negative, DigitOf(c), 0, 1)
        else if c == '.' then Scan(s, i + 1, Frac, negative, 0, 0, 0)
        else None
      case Whole =>
        if IsDigit(c) then Scan(s, i + 1, Whole, negative, units * 10 + DigitOf(c), 0, digits + 1)
        else if c == '.' then Scan(s, i + 1, Frac, negative, units, 0, digits)
        else if IsSpace(c) then Scan(s, i + 1, Trail, negative, units, scale, digits)
        else None
      case Frac =>
        if IsDigit(c) then Scan(s, i + 1, Frac, negative, units * 10 + DigitOf(c), scale + 1, digits + 1)
        else if IsSpace(c) then Scan(s, i + 1, Trail, negative, units, scale, digits)
        else None
      case Trail =>
        if IsSpace(c) then Scan(s, i + 1, Trail, negative, units, scale, digits) else None
  }

  function ParseFloat(s: string): Option<Decimal> {
    Scan(s, 0, Lead, false, 0, 0, 0)
  }

  /** `-bound <= value <= bound`, decided on the digits: |units / 10^scale| <= bound. */
  predicate WithinBound(d: Decimal, bound: nat) {
    d.units <= bound * Pow10(d.scale)
  }

  /** `has_valid_coord`: both strings non-empty and numeric, latitude in [-90, 90], longitude in [-180, 180]. */
  predicate HasValidCoord(lat: string, lon: string) {
    && lat != "" && lon != ""
    && ParseFloat(lat).Some? && ParseFloat(lon).Some?
    && WithinBound(ParseFloat(lat).value, 90)
    && WithinBound(ParseFloat(lon).value, 180)
  }

  /** The digit test is exactly the closed range test on the denoted number. */
  lemma WithinBoundMeaning(d: Decimal, bound: nat)
    ensures WithinBound(d, bound) <==> -(bound as real) <= Value(d) <= bound as real
  {
    var p := Pow10(d.scale) as real;
    var m := d.units as real / p;
    assert m * p == d.units as real;
    assert m >= 0.0;
    if d.units <= bound * Pow10(d.scale) {
      assert m * p <= (bound as real) * p;
    } else {
      assert m * p > (bound as real) * p;
    }
  }

  /** Leading whitespace is skipped: `float(c + s) == float(s)` for a whitespace character `c`. */
  lemma LeadingSpaceIgnored(c: char, s: string)
    requires IsSpace(c)
    ensures ParseFloat([c] + s) == ParseFloat(s)
  {
    ScanShift([c], s, 0, Lead, false, 0, 0, 0);
  }

  /** Scanning past a prefix that has already been read. */
  lemma {:induction false} ScanShift(p: string, s: string, i: nat, phase: Phase, negative: bool, units: nat, scale: nat, digits: nat)
    requires i <= |s|
    ensures Scan(p + s, |p| + i, phase, negative, units, scale, digits) == Scan(s, i, phase, negative, units, scale, digits)
    decreases |s| - i
  {
    if i < |s| {
      assert (p + s)[|p| + i] == s[i];
      var c := s[i];
      match phase
      case Lead =>
        if c == '-' || c == '+' { ScanShift(p, s, i + 1, Signed, c == '-', 0, 0, 0); }
        else if IsDigit(c) && !IsSpace(c) { ScanShift(p, s, i + 1, Whole, false, DigitOf(c), 0, 1); }
        else if c == '.' { ScanShift(p, s, i + 1, Frac, false, 0, 0, 0); }
        else { ScanShift(p, s, i + 1, Lead, negative, units, scale, digits); }
      case Signed =>
        if IsDigit(c) { ScanShift(p, s, i + 1, Whole, negative, DigitOf(c), 0, 1); }
        else { ScanShift(p, s, i + 1, Frac, negative, 0, 0, 0); }
      case Whole =>
        if IsDigit(c) { ScanShift(p, s, i + 1, Whole, negative, units * 10 + DigitOf(c), 0, digits + 1); }
        else if c == '.' { ScanShift(p, s, i + 1, Frac, negative, units, 0, digits); }
        else { ScanShift(p, s, i + 1, Trail, negative, units, scale, digits); }
      case Frac =>
        if IsDigit(c) { ScanShift(p, s, i + 1, Frac, negative, units * 10 + DigitOf(c), scale + 1, digits + 1); }
        else { ScanShift(p, s, i + 1, Trail, negative, units, scale, digits); }
      case Trail =>
        ScanShift(p, s, i + 1, Trail, negative, units, scale, digits);
    }
  }

  /** Reading the rest of an all-digit text in the whole-number phase accumulates its value. */
  lemma {:induction false} ScanWholeDigits(s: string, start: nat, i: nat, negative: bool)
    requires start < i <= |s| && AllDigits(s[start..])
    ensures AllDigits(s[start..i])
    ensures Scan(s, i, Whole, negative, DigitsValue(s[start..i]), 0, i - start) == Some(Decimal(negative, DigitsValue(s[start..]), 0))
    decreases |s| - i
  {
    assert forall k :: 0 <= k < i - start ==> s[start..i][k] == s[start..][k];
    if i < |s| {
      assert s[start..][i - start] == s[i];
      assert s[start..i + 1][..i - start] == s[start..i];
      ScanWholeDigits(s, start, i + 1, negative);
    } else {
      assert s[start..i] == s[start..];
    }
  }

  /** `float` of a non-empty digit string is that integer. */
  lemma ParseFloatOfDigits(d: string)
    requires d != [] && AllDigits(d)
    ensures ParseFloat(d) == Some(Decimal(false, DigitsValue(d), 0))
  {
    assert d[0..] == d;
    assert IsDigit(d[0]);
    assert d[0..1] == [d[0]];
    ScanWholeDigits(d, 0, 1, false);
  }

  /** `float` of a minus sign and a non-empty digit string is the negated integer. */
  lemma ParseFloatOfNegDigits(d: string)
    requires d != [] && AllDigits(d)
    ensures ParseFloat(['-'] + d) == Some(Decimal(true, DigitsValue(d), 0))
  {
    var m := ['-'] + d;
    assert m[1..] == d;
    assert m[1] == d[0] && IsDigit(d[0]);
    assert m[1..2] == [d[0]];
    assert DigitsValue(m[1..2]) == DigitOf(m[1]) by { assert m[1..2][..0] == []; }
    ScanWholeDigits(m, 1, 2, true);
    assert Scan(m, 1, Signed, true, 0, 0, 0) == Scan(m, 2, Whole, true, DigitOf(m[1]), 0, 1);
  }

  /** A decimal with fraction digits: "45.4642" is 454642 / 10^4. */
  lemma ParseFloatOfDecimalExample()
    ensures ParseFloat("45.4642") == Some(Decimal(false, 454642, 4))
    ensures Value(Decimal(false, 454642, 4)) == 45.4642
    ensures HasValidCoord("45.4642", "9.19")
  {
    assert Pow10(4) == 10000;
    assert Pow10(2) == 100;
  }

  /** Text that is not a number is rejected, as are empty strings and a lone point. */
  lemma ParseFloatRejects()
    ensures ParseFloat("") == None && ParseFloat(".") == None && ParseFloat("-") == None
    ensures ParseFloat("4 5") == None && ParseFloat("n/a") == None
    ensures !HasValidCoord("", "9.0") && !HasValidCoord("45.0", "")
  {
  }

  /**
   * The coordinate gate on whole-degree text: integer latitude and longitude strings
   * are accepted exactly when their values lie in range; a minus sign on either
   * coordinate keeps it in range under the same bound.
   */
  lemma HasValidCoordOnIntegers(lat: string, lon: string)
    requires lat != [] && AllDigits(lat) && lon != [] && AllDigits(lon)
    ensures HasValidCoord(lat, lon) <==> DigitsValue(lat) <= 90 && DigitsValue(lon) <= 180
    ensures HasValidCoord(['-'] + lat, lon) <==> DigitsValue(lat) <= 90 && DigitsValue(lon) <= 180
    ensures HasValidCoord(lat, ['-'] + lon) <==> DigitsValue(lat) <= 90 && DigitsValue(lon) <= 180
    ensures HasValidCoord(['-'] + lat, ['-'] + lon) <==> DigitsValue(lat) <= 90 && DigitsValue(lon) <= 180
  {
    ParseFloatOfDigits(lat);
    ParseFloatOfNegDigits(lat);
    ParseFloatOfDigits(lon);
    ParseFloatOfNegDigits(lon);
  }
}
