/**
 * Clock-time handling of scraper/normalize_italo.py: parsing `HH:MM`, formatting
 * GTFS `HH:MM:SS` (hour may pass 24), and the midnight-rollover inference that
 * turns a stop-ordered list of clock minutes into absolute minutes.
 */
module Times {
  import opened Wrappers
  import opened Text

  const MinutesPerDay: nat := 1440

  /**
   * The text `TIME_RE = ^\d{2}:\d{2}$` accepts under `re.match`, with `\d` read as the
   * ASCII digits: two digits, a colon, two digits, and, because `$` also matches before
   * a final newline, an optional "\n".
   */
  predicate MatchesHhmm(s: string) {
    && (|s| == 5 || (|s| == 6 && s[5] == '\n'))
    && IsDigit(s[0]) && IsDigit(s[1]) && s[2] == ':' && IsDigit(s[3]) && IsDigit(s[4])
  }

  /** `parse_hhmm`: minutes since 00:00 for `HH:MM`, else None. No 0..1439 range check. */
  function ParseHhmm(s: Option<string>): (r: Option<nat>)
    ensures r.Some? <==> s.Some? && MatchesHhmm(s.value)
    ensures r.Some? ==> r.value <= 99 * 60 + 99
    ensures r.Some? ==> r.value == (DigitOf(s.value[0]) * 10 + DigitOf(s.value[1])) * 60
                                   + DigitOf(s.value[3]) * 10 + DigitOf(s.value[4])
  {
    if s.None? || s.value == "" || !MatchesHhmm(s.value) then None
    else
      var t := s.value;
      Some((DigitOf(t[0]) * 10 + DigitOf(t[1])) * 60 + DigitOf(t[3]) * 10 + DigitOf(t[4]))
  }

  /** `fmt_gtfs_time`: `HH:MM:00` with `HH = minutes // 60` (at least two digits, may be 24 or more). */
  function FmtGtfsTime(minutes: Option<nat>): (r: Option<string>)
    ensures r.None? <==> minutes.None?
  {
    match minutes
    case None => None
    case Some(m) => Some(Pad2(m / 60) + ":" + Pad2(m % 60) + ":00")
  }

  /**
   * Reads a GTFS time `H+:MM:SS` back into minutes; seconds must be zero and
   * minutes below 60. The inverse of FmtGtfsTime.
   */
  function ParseGtfsTime(t: string): Option<nat> {
    if |t| < 8 then None
    else
      var h := t[..|t| - 6];
      var tail := t[|t| - 6..];
      if AllDigits(h) && tail[0] == ':' && IsDigit(tail[1]) && IsDigit(tail[2])
         && tail[3] == ':' && tail[4] == '0' && tail[5] == '0'
         && DigitOf(tail[1]) * 10 + DigitOf(tail[2]) < 60
      then Some(DigitsValue(h) * 60 + DigitOf(tail[1]) * 10 + DigitOf(tail[2]))
      else None
  }

  /** The value of a two-digit string. */
  lemma TwoDigitsValue(ms: string)
    requires |ms| == 2 && AllDigits(ms)
    ensures DigitsValue(ms) == DigitOf(ms[0]) * 10 + DigitOf(ms[1])
  {
    var first := ms[..1];
    assert first == [ms[0]];
    assert first[..0] == [];
    assert DigitsValue(first) == DigitOf(ms[0]);
  }

  /** Reading `h:ab:00` back gives `h` hours and `ab` minutes. */
  lemma ParseGtfsTimeParts(t: string, h: string, a: char, b: char)
    requires |h| >= 2 && AllDigits(h) && IsDigit(a) && IsDigit(b) && DigitOf(a) * 10 + DigitOf(b) < 60
    requires t == h + [':', a, b, ':', '0', '0']
    ensures ParseGtfsTime(t) == Some(DigitsValue(h) * 60 + DigitOf(a) * 10 + DigitOf(b))
  {
    var h', tail := t[..|t| - 6], t[|t| - 6..];
    assert h' == h;
    assert tail == [':', a, b, ':', '0', '0'];
    assert tail[1] == a && tail[2] == b;
    assert DigitsValue(h') == DigitsValue(h);
  }

  /** Formatting loses nothing: hour * 60 + minute gives the input back, for every hour. */
  lemma FmtGtfsTimeRoundTrip(m: nat)
    ensures FmtGtfsTime(Some(m)).Some?
    ensures ParseGtfsTime(FmtGtfsTime(Some(m)).value) == Some(m)
  {
    var hs, ms := Pad2(m / 60), Pad2(m % 60);
    Pad2RoundTrip(m / 60);
    Pad2RoundTrip(m % 60);
    TwoDigitsValue(ms);
    assert hs + ":" + ms + ":00" == hs + [':', ms[0], ms[1], ':', '0', '0'];
    ParseGtfsTimeParts(FmtGtfsTime(Some(m)).value, hs, ms[0], ms[1]);
  }

  /**
   * For a well-formed clock time whose minute field is below 60, formatting the
   * parsed value reproduces the text with ":00" appended.
   */
  lemma ParseThenFormat(s: string)
    requires |s| == 5 && MatchesHhmm(s) && DigitOf(s[3]) * 10 + DigitOf(s[4]) < 60
    ensures FmtGtfsTime(ParseHhmm(Some(s))) == Some(s + ":00")
  {
    var hh := DigitOf(s[0]) * 10 + DigitOf(s[1]);
    var mm := DigitOf(s[3]) * 10 + DigitOf(s[4]);
    var m := hh * 60 + mm;
    assert m / 60 == hh && m % 60 == mm;
    TwoDigits(s[0], s[1]);
    TwoDigits(s[3], s[4]);
    assert s == [s[0], s[1]] + ":" + [s[3], s[4]];
  }

  /** Pad2 of a two-digit value reproduces those two digits. */
  lemma TwoDigits(a: char, b: char)
    requires IsDigit(a) && IsDigit(b)
    ensures Pad2(DigitOf(a) * 10 + DigitOf(b)) == [a, b]
  {
    var n := DigitOf(a) * 10 + DigitOf(b);
    if n >= 10 {
      assert n / 10 == DigitOf(a) && n % 10 == DigitOf(b);
      assert NatToDigits(n) == NatToDigits(n / 10) + [DigitChar(n % 10)];
      assert NatToDigits(n / 10) == [DigitChar(n / 10)];
      assert DigitChar(DigitOf(a)) == a;
      assert DigitChar(DigitOf(b)) == b;
    } else {
      assert DigitOf(a) == 0 && a == '0';
      assert DigitChar(DigitOf(b)) == b;
    }
  }

  /**
   * The rollover inference as a function of the remaining times, the running day
   * offset and the last resolved value.
   */
  function RolloverFrom(times: seq<Option<nat>>, offset: nat, prev: Option<nat>): seq<Option<nat>>
    decreases |times|
  {
    if times == [] then []
    else match times[0]
      case None => [None] + RolloverFrom(times[1..], offset, prev)
      case Some(t) =>
        if prev.Some? && t + offset < prev.value then
          [Some(t + offset + MinutesPerDay)] + RolloverFrom(times[1..], offset + MinutesPerDay, Some(t + offset + MinutesPerDay))
        else
          [Some(t + offset)] + RolloverFrom(times[1..], offset, Some(t + offset))
  }

  /** What `infer_rollover_minutes` returns for `times`. */
  function Rollover(times: seq<Option<nat>>): seq<Option<nat>> {
    RolloverFrom(times, 0, None)
  }

  /** `infer_rollover_minutes`: the loop with its `offset` and `prev` accumulators. */
  method InferRollover(times: seq<Option<nat>>) returns (out: seq<Option<nat>>)
    ensures out == Rollover(times)
  {
    out := [];
    var offset: nat := 0;
    var prev: Option<nat> := None;
    var i := 0;
    while i < |times|
      invariant 0 <= i <= |times|
      invariant out + RolloverFrom(times[i..], offset, prev) == Rollover(times)
    {
      assert times[i..][1..] == times[i + 1..];
      ghost var before := out;
      ghost var rest := RolloverFrom(times[i..], offset, prev);
      var t := times[i];
      if t.None? {
        out := out + [None];
      } else {
        var val := t.value + offset;
        if prev.Some? && val < prev.value {
          offset := offset + MinutesPerDay;
          val := t.value + offset;
        }
        out := out + [Some(val)];
        prev := Some(val);
      }
      ghost var after := RolloverFrom(times[i + 1..], offset, prev);
      assert rest == [out[|out| - 1]] + after;
      AppendAssoc(before, [out[|out| - 1]], after);
      i := i + 1;
    }
    assert times[i..] == [];
  }

  /** The result has the input's length and None exactly where the input has None. */
  lemma {:induction false} RolloverFromShape(times: seq<Option<nat>>, offset: nat, prev: Option<nat>)
    ensures |RolloverFrom(times, offset, prev)| == |times|
    ensures forall i :: 0 <= i < |times| ==> (RolloverFrom(times, offset, prev)[i].None? <==> times[i].None?)
    decreases |times|
  {
    if times != [] {
      var r := RolloverFrom(times, offset, prev);
      match times[0]
      case None =>
        RolloverFromShape(times[1..], offset, prev);
      case Some(t) =>
        if prev.Some? && t + offset < prev.value {
          RolloverFromShape(times[1..], offset + MinutesPerDay, Some(t + offset + MinutesPerDay));
        } else {
          RolloverFromShape(times[1..], offset, Some(t + offset));
        }
    }
  }

  /** `d` minutes are a whole number of days. */
  predicate WholeDays(d: int)
    decreases if d < 0 then 0 else d
  {
    d == 0 || (d >= MinutesPerDay && WholeDays(d - MinutesPerDay))
  }

  lemma {:induction false} WholeDaysMod(d: int)
    requires WholeDays(d)
    ensures d >= 0 && d % MinutesPerDay == 0
    decreases if d < 0 then 0 else d
  {
    if d != 0 {
      WholeDaysMod(d - MinutesPerDay);
    }
  }

  /** A present input `t` came out as `r`: `t` plus `offset` plus a whole number of days. */
  predicate Added(r: Option<nat>, t: Option<nat>, offset: nat) {
    t.Some? ==> r.Some? && r.value >= t.value + offset && WholeDays(r.value - t.value - offset)
  }

  /** Adding one more day to the offset keeps the result a whole number of days away. */
  lemma AddedShift(r: Option<nat>, t: Option<nat>, offset: nat, days: nat)
    requires days == 0 || days == MinutesPerDay
    requires Added(r, t, offset + days)
    ensures Added(r, t, offset)
  {
    if t.Some? && days != 0 {
      assert r.value - t.value - offset == (r.value - t.value - (offset + days)) + MinutesPerDay;
    }
  }

  /** Every present output is its input plus the starting offset plus a whole number of days. */
  lemma {:induction false} RolloverFromAdded(times: seq<Option<nat>>, offset: nat, prev: Option<nat>)
    ensures |RolloverFrom(times, offset, prev)| == |times|
    ensures forall i :: 0 <= i < |times| ==> Added(RolloverFrom(times, offset, prev)[i], times[i], offset)
    decreases |times|
  {
    RolloverFromShape(times, offset, prev);
    if times != [] {
      var r := RolloverFrom(times, offset, prev);
      var tail := times[1..];
      match times[0]
      case None =>
        RolloverFromAdded(tail, offset, prev);
        assert forall i :: 0 < i < |times| ==> r[i] == RolloverFrom(tail, offset, prev)[i - 1] && times[i] == tail[i - 1];
      case Some(t) =>
        var days: nat := if prev.Some? && t + offset < prev.value then MinutesPerDay else 0;
        var prev' := Some(t + offset + days);
        assert r == [Some(t + offset + days)] + RolloverFrom(tail, offset + days, prev');
        RolloverFromAdded(tail, offset + days, prev');
        var rt := RolloverFrom(tail, offset + days, prev');
        forall i | 0 <= i < |times|
          ensures Added(r[i], times[i], offset)
        {
          if i > 0 {
            assert r[i] == rt[i - 1] && times[i] == tail[i - 1];
            AddedShift(r[i], times[i], offset, days);
          } else {
            AddedShift(r[0], times[0], offset, days);
          }
        }
    }
  }

  /** The offset added to present entries never decreases along the list. */
  lemma {:induction false} RolloverFromOrdered(times: seq<Option<nat>>, offset: nat, prev: Option<nat>)
    ensures |RolloverFrom(times, offset, prev)| == |times|
    ensures forall i, j :: 0 <= i < j < |times| && times[i].Some? && times[j].Some? ==>
              RolloverFrom(times, offset, prev)[i].Some? && RolloverFrom(times, offset, prev)[j].Some? &&
              RolloverFrom(times, offset, prev)[i].value as int - times[i].value
              <= RolloverFrom(times, offset, prev)[j].value as int - times[j].value
    decreases |times|
  {
    RolloverFromShape(times, offset, prev);
    if times != [] {
      var r := RolloverFrom(times, offset, prev);
      var tail := times[1..];
      match times[0]
      case None =>
        RolloverFromOrdered(tail, offset, prev);
        assert forall i :: 0 < i < |times| ==> r[i] == RolloverFrom(tail, offset, prev)[i - 1] && times[i] == tail[i - 1];
      case Some(t) =>
        var off' := if prev.Some? && t + offset < prev.value then offset + MinutesPerDay else offset;
        var prev' := Some(t + off');
        assert r == [Some(t + off')] + RolloverFrom(tail, off', prev');
        RolloverFromOrdered(tail, off', prev');
        RolloverFromAdded(tail, off', prev');
        assert forall i :: 0 < i < |times| ==> r[i] == RolloverFrom(tail, off', prev')[i - 1] && times[i] == tail[i - 1];
    }
  }

  /** Offsets of the whole inference: input plus k * 1440 with k >= 0, non-decreasing along the list. */
  lemma RolloverOffsets(times: seq<Option<nat>>)
    ensures |Rollover(times)| == |times|
    ensures forall i :: 0 <= i < |times| ==> (Rollover(times)[i].None? <==> times[i].None?)
    ensures forall i :: 0 <= i < |times| && times[i].Some? ==>
              Rollover(times)[i].value >= times[i].value
              && (Rollover(times)[i].value - times[i].value) % MinutesPerDay == 0
    ensures forall i, j :: 0 <= i < j < |times| && times[i].Some? && times[j].Some? ==>
              Rollover(times)[i].value as int - times[i].value <= Rollover(times)[j].value as int - times[j].value
  {
    RolloverFromShape(times, 0, None);
    RolloverFromAdded(times, 0, None);
    RolloverFromOrdered(times, 0, None);
    forall i | 0 <= i < |times| && times[i].Some?
      ensures Rollover(times)[i].value >= times[i].value
      ensures (Rollover(times)[i].value - times[i].value) % MinutesPerDay == 0
    {
      assert Added(Rollover(times)[i], times[i], 0);
      WholeDaysMod(Rollover(times)[i].value - times[i].value - 0);
    }
  }

  /** Every present time is a clock time of one day. */
  predicate AllClockTimes(times: seq<Option<nat>>) {
    forall i :: 0 <= i < |times| && times[i].Some? ==> times[i].value < MinutesPerDay
  }

  /** Every output at a present input is present and at least `lo`. */
  predicate PresentAtLeast(times: seq<Option<nat>>, r: seq<Option<nat>>, lo: nat)
    requires |r| == |times|
  {
    forall j :: 0 <= j < |times| && times[j].Some? ==> r[j].Some? && r[j].value >= lo
  }

  /** The outputs at present inputs are present and never decrease along the list. */
  predicate PresentNonDecreasing(times: seq<Option<nat>>, r: seq<Option<nat>>)
    requires |r| == |times|
  {
    forall i, j :: 0 <= i < j < |times| && times[i].Some? && times[j].Some? ==>
      r[i].Some? && r[j].Some? && r[i].value <= r[j].value
  }

  /** Putting a present output `v` in front of outputs that are all at least `v`. */
  lemma PresentConsSome(times: seq<Option<nat>>, r: seq<Option<nat>>, v: nat, lo: nat)
    requires |times| == |r| > 0 && times[0].Some? && r[0] == Some(v) && v >= lo
    requires PresentAtLeast(times[1..], r[1..], v) && PresentNonDecreasing(times[1..], r[1..])
    ensures PresentAtLeast(times, r, lo) && PresentNonDecreasing(times, r)
  {
    assert forall i :: 0 < i < |times| ==> r[i] == r[1..][i - 1] && times[i] == times[1..][i - 1];
  }

  /** Putting an absent output in front keeps both properties. */
  lemma PresentConsNone(times: seq<Option<nat>>, r: seq<Option<nat>>, lo: Option<nat>)
    requires |times| == |r| > 0 && times[0].None?
    requires lo.Some? ==> PresentAtLeast(times[1..], r[1..], lo.value)
    requires PresentNonDecreasing(times[1..], r[1..])
    ensures lo.Some? ==> PresentAtLeast(times, r, lo.value)
    ensures PresentNonDecreasing(times, r)
  {
    assert forall i :: 0 < i < |times| ==> r[i] == r[1..][i - 1] && times[i] == times[1..][i - 1];
  }

  lemma {:induction false} RolloverFromMonotone(times: seq<Option<nat>>, offset: nat, prev: Option<nat>)
    requires AllClockTimes(times)
    requires prev.Some? ==> offset <= prev.value < offset + MinutesPerDay
    ensures |RolloverFrom(times, offset, prev)| == |times|
    ensures prev.Some? ==> PresentAtLeast(times, RolloverFrom(times, offset, prev), prev.value)
    ensures PresentNonDecreasing(times, RolloverFrom(times, offset, prev))
    decreases |times|
  {
    RolloverFromShape(times, offset, prev);
    if times != [] {
      var r := RolloverFrom(times, offset, prev);
      var tail := times[1..];
      assert AllClockTimes(tail) by {
        assert forall i :: 0 <= i < |tail| ==> tail[i] == times[i + 1];
      }
      match times[0]
      case None =>
        assert r[1..] == RolloverFrom(tail, offset, prev);
        RolloverFromMonotone(tail, offset, prev);
        PresentConsNone(times, r, prev);
      case Some(t) =>
        var off' := if prev.Some? && t + offset < prev.value then offset + MinutesPerDay else offset;
        var prev' := Some(t + off');
        assert r == [Some(t + off')] + RolloverFrom(tail, off', prev');
        assert r[1..] == RolloverFrom(tail, off', prev');
        RolloverFromMonotone(tail, off', prev');
        PresentConsSome(times, r, t + off', if prev.Some? then prev.value else t + off');
    }
  }

  /**
   * When every present input is a clock time of one day (below 1440), the present
   * outputs never decrease along the list.
   */
  lemma RolloverMonotone(times: seq<Option<nat>>)
    requires AllClockTimes(times)
    ensures |Rollover(times)| == |times|
    ensures forall i, j :: 0 <= i < j < |times| && times[i].Some? && times[j].Some? ==>
              Rollover(times)[i].Some? && Rollover(times)[j].Some? &&
              Rollover(times)[i].value <= Rollover(times)[j].value
  {
    RolloverFromMonotone(times, 0, None);
    assert PresentNonDecreasing(times, Rollover(times));
  }

  /**
   * Without that bound the outputs can decrease: "99:00" (5940) followed by "00:00"
   * rolls over once and gives 1440.
   */
  lemma RolloverCanDecreaseOnLongHours()
    ensures Rollover([Some(5940), Some(0)]) == [Some(5940), Some(1440)]
  {
  }
}
