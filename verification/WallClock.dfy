/**
 Wall clocks as text and instants as milliseconds (apps/webui-static/schedule.js): what the formatter
 prints, how `Date.UTC` reads it back, and the round trips between the two.
 */
module WallClock {
  import opened Arithmetic
  import opened Text
  import opened Calendar
  import opened Options
  import opened Zone

  const SECOND := 1_000
  const MINUTE := 60_000
  const DAY := 86_400_000

  /** The six numbers of a wall clock; parsing does not check that they are in range. */
  datatype Fields = Fields(year: int, month: int, day: int, hour: int, minute: int, second: int)

  predicate InRange(f: Fields) {
    && ValidDate(Date(f.year, f.month, f.day))
    && 0 <= f.hour < 24 && 0 <= f.minute < 60 && 0 <= f.second < 60
  }

  /** The fields of a local time in milliseconds; sub-second parts are dropped towards the past. */
  function Split(local: int): (f: Fields)
    ensures InRange(f)
  {
    var d := DateOfDay(local / DAY);
    var ms := local % DAY;
    Fields(d.year, d.month, d.day, ms / HOUR, ms % HOUR / MINUTE, ms % MINUTE / SECOND)
  }

  /** The local time that fields denote; they may be out of range, as `MakeDay` carries them. */
  function Join(f: Fields): int {
    MakeDay(f.year, f.month - 1, f.day) * DAY + f.hour * HOUR + f.minute * MINUTE + f.second * SECOND
  }

  /** `Date.UTC` (section 21.4.3.4 of ECMA-262), which takes the years 0 to 99 for 1900 to 1999. */
  function DateUTC(f: Fields): int {
    Join(if 0 <= f.year <= 99 then f.(year := 1900 + f.year) else f)
  }

  // ---- Splitting and joining are inverse ----

  lemma ClockOfMs(ms: int)
    ensures ms / HOUR * HOUR + ms % HOUR / MINUTE * MINUTE + ms % MINUTE / SECOND * SECOND == ms - ms % SECOND
  {
    var h, rest := ms / HOUR, ms % HOUR;
    var k, tail := rest / MINUTE, rest % MINUTE;
    var s, r := tail / SECOND, tail % SECOND;
    DivModUnique(ms, MINUTE, 60 * h + k, tail);
    DivModUnique(ms, SECOND, 3600 * h + 60 * k + s, r);
  }

  lemma MsOfClock(h: int, k: int, s: int)
    requires 0 <= h < 24 && 0 <= k < 60 && 0 <= s < 60
    ensures var ms := h * HOUR + k * MINUTE + s * SECOND;
            0 <= ms < DAY && ms / HOUR == h && ms % HOUR / MINUTE == k && ms % MINUTE / SECOND == s
  {
    var ms := h * HOUR + k * MINUTE + s * SECOND;
    assert ms / HOUR == h && ms % HOUR == k * MINUTE + s * SECOND;
    assert ms == (60 * h + k) * MINUTE + s * SECOND;
    assert ms % MINUTE == s * SECOND;
  }

  lemma JoinOfSplit(local: int)
    ensures Join(Split(local)) == local - local % SECOND
  {
    var n, ms := local / DAY, local % DAY;
    DayNumberOfDate(n);
    MakeDayInRange(DateOfDay(n));
    ClockOfMs(ms);
    assert Join(Split(local)) == n * DAY + ms - ms % SECOND;
    DivModUnique(local, SECOND, 86_400 * n + ms / SECOND, ms % SECOND);
  }

  lemma JoinParts(f: Fields)
    requires InRange(f)
    ensures Join(f) / DAY == DayNumber(Date(f.year, f.month, f.day))
    ensures Join(f) % DAY == f.hour * HOUR + f.minute * MINUTE + f.second * SECOND
  {
    var d := Date(f.year, f.month, f.day);
    MakeDayInRange(d);
    MsOfClock(f.hour, f.minute, f.second);
    DivModUnique(Join(f), DAY, DayNumber(d), f.hour * HOUR + f.minute * MINUTE + f.second * SECOND);
  }

  lemma SplitOfJoin(f: Fields)
    requires InRange(f)
    ensures Split(Join(f)) == f
  {
    JoinParts(f);
    MsOfClock(f.hour, f.minute, f.second);
    DateOfDayNumber(Date(f.year, f.month, f.day));
    hide Join, DateOfDay, DayNumber;
  }

  /** The year of a local time is at least `y` exactly from the start of year `y` on. */
  lemma YearOfSplit(local: int, y: int)
    ensures Split(local).year >= y <==> local >= DayFromYear(y) * DAY
  {
    YearMonotone(local / DAY, y);
  }

  // ---- What the formatter prints ----

  /** One part of a formatted date; separators have the kind `literal`. */
  datatype Part = Part(kind: string, value: string)

  /** `year: 'numeric'` without an era prints the year of the era, so 1 BC prints as 1. */
  function EraYear(y: int): (r: int)
    ensures r >= 1
  {
    if y >= 1 then y else 1 - y
  }

  /** Years of the common era print as they are; the year before year 1 prints as 1 again, and so on back. */
  lemma ErasMirror(y: int)
    ensures EraYear(y) == EraYear(1 - y) && (y >= 1 ==> EraYear(y) == y)
  {
  }

  /** `formatToParts` with the options of schedule.js:32-36, and of schedule.js:88-91 without seconds. */
  function FormatToParts(z: Zone, instant: int, seconds: bool): seq<Part> {
    var f := Split(Reads(z, instant));
    [Part("year", Numeral(EraYear(f.year))), Part("literal", "-"), Part("month", TwoDigitsOf(f.month)),
     Part("literal", "-"), Part("day", TwoDigitsOf(f.day)), Part("literal", ", "),
     Part("hour", TwoDigitsOf(f.hour)), Part("literal", ":"), Part("minute", TwoDigitsOf(f.minute))]
    + if seconds then [Part("literal", ":"), Part("second", TwoDigitsOf(f.second))] else []
  }

  function TwoDigitsOf(n: int): string
    requires 0 <= n < 100
  {
    TwoDigits(n)
  }

  /** The non-literal parts as a dictionary, with the loop that schedule.js writes twice (37-38 and 92-93). */
  method CollectFields(parts: seq<Part>) returns (field: map<string, string>)
    requires forall i, j :: 0 <= i < j < |parts| && parts[i].kind != "literal" ==> parts[i].kind != parts[j].kind
    ensures forall i :: 0 <= i < |parts| && parts[i].kind != "literal" ==>
              parts[i].kind in field && field[parts[i].kind] == parts[i].value
  {
    field := map[];
    for i := 0 to |parts|
      invariant forall k :: 0 <= k < i && parts[k].kind != "literal" ==>
                  parts[k].kind in field && field[parts[k].kind] == parts[k].value
    {
      if parts[i].kind != "literal" {
        field := field[parts[i].kind := parts[i].value];
      }
    }
  }

  /** What `zoneOffsetMs` reports at an instant: the printed fields read as UTC, less the instant. */
  function ReportedOffset(z: Zone, instant: int): int {
    var f := Split(Reads(z, instant));
    DateUTC(f.(year := EraYear(f.year))) - instant
  }

  method ZoneOffsetMs(instant: int, z: Zone) returns (offset: int)
    ensures offset == ReportedOffset(z, instant)
  {
    var parts := FormatToParts(z, instant, true);
    assert parts[0].kind == "year" && parts[2].kind == "month" && parts[4].kind == "day";
    assert parts[6].kind == "hour" && parts[8].kind == "minute" && parts[10].kind == "second";
    var field := CollectFields(parts);
    var asIfUtc := DateUTC(Fields(
      Value(field["year"]), Value(field["month"]), Value(field["day"]),
      Value(field["hour"]), Value(field["minute"]), Value(field["second"])));
    offset := asIfUtc - instant;
  }

  /**
   The reported offset is the zone's own offset less the sub-second part of the instant, exactly while the
   zone shows a year from 100 on: `Date.UTC` moves the years 0 to 99 and the era hides the sign of earlier ones.
   */
  lemma ReportedOffsetExactly(z: Zone, instant: int)
    requires OffsetAt(z, instant) % SECOND == 0
    ensures ReportedOffset(z, instant) == OffsetAt(z, instant) - instant % SECOND
            <==> Split(Reads(z, instant)).year >= 100
  {
    var local := Reads(z, instant);
    SubSecond(instant, OffsetAt(z, instant));
    JoinOfSplit(local);
    YearOfSplit(local, 100);
    PrintedYear(Split(local));
  }

  lemma PrintedYear(f: Fields)
    requires InRange(f)
    ensures f.year >= 100 ==> DateUTC(f.(year := EraYear(f.year))) == Join(f)
    ensures f.year < 100 ==> DateUTC(f.(year := EraYear(f.year))) >= DayFromYear(100) * DAY
  {
    if f.year >= 100 {
      assert f.(year := EraYear(f.year)) == f;
    } else {
      var e := EraYear(f.year);
      JoinNotBefore(f.(year := if e <= 99 then 1900 + e else e), 100);
    }
  }

  lemma SubSecond(t: int, offset: int)
    requires offset % SECOND == 0
    ensures (t + offset) % SECOND == t % SECOND
  {
  }

  /** Fields with a month and day in range, even a day its month lacks, join to a time of their year or later. */
  lemma JoinNotBefore(f: Fields, y: int)
    requires 1 <= f.month <= 12 && 1 <= f.day && 0 <= f.hour && 0 <= f.minute && 0 <= f.second
    requires f.year >= y
    ensures Join(f) >= DayFromYear(y) * DAY
  {
    MakeDayInRange(Date(f.year, f.month, f.day));
    MonthStartsNonnegative(f.year, f.month);
    YearsOrdered(y, f.year);
  }

  // ---- Parsing and resolving ----

  /** `WALL_CLOCK` (schedule.js:46): four-digit year, two-digit fields, optional seconds. */
  predicate Matches(t: string) {
    && (|t| == 16 || (|t| == 19 && t[16] == ':' && AllDigits(t[17..19])))
    && t[4] == '-' && t[7] == '-' && t[10] == 'T' && t[13] == ':'
    && AllDigits(t[0..4]) && AllDigits(t[5..7]) && AllDigits(t[8..10])
    && AllDigits(t[11..13]) && AllDigits(t[14..16])
  }

  function Parse(s: string): Option<Fields> {
    var t := Trim(s);
    if Matches(t) then
      Some(Fields(Value(t[0..4]), Value(t[5..7]), Value(t[8..10]), Value(t[11..13]), Value(t[14..16]),
                  if |t| == 19 then Value(t[17..19]) else 0))
    else None
  }

  datatype Resolved = Instant(ms: int) | NotAWallClock | UnknownZone

  function ReportedPass(z: Zone, w: int, guess: int): int {
    w - ReportedOffset(z, guess)
  }

  /** The two passes over the offsets that are actually reported. */
  function ReportedResolve(z: Zone, w: int): int {
    ReportedPass(z, w, ReportedPass(z, w, w))
  }

  /** `zone` is the result of looking the name up; an unknown name throws, after the shape is checked. */
  method ZonedWallClockToUtcIso(wallClock: string, zone: Option<Zone>) returns (r: Resolved)
    ensures r.NotAWallClock? <==> Parse(wallClock).None?
    ensures r.UnknownZone? <==> Parse(wallClock).Some? && zone.None?
    ensures r.Instant? ==> r.ms == ReportedResolve(zone.value, DateUTC(Parse(wallClock).value))
  {
    var parsed := Parse(wallClock);
    if parsed.None? { return NotAWallClock; }
    if zone.None? { return UnknownZone; }
    var naiveUtcMs := DateUTC(parsed.value);
    var instantMs := TwoPasses(naiveUtcMs, zone.value);
    return Instant(instantMs);
  }

  /** The passes of schedule.js:79-80. */
  method TwoPasses(naiveUtcMs: int, z: Zone) returns (instantMs: int)
    ensures instantMs == ReportedResolve(z, naiveUtcMs)
  {
    var offset := ZoneOffsetMs(naiveUtcMs, z);
    instantMs := naiveUtcMs - offset;
    offset := ZoneOffsetMs(instantMs, z);
    instantMs := naiveUtcMs - offset;
  }

  /** How fields print: the year as a bare numeral, the rest padded to two digits, no seconds. */
  function ShowFields(f: Fields): string
    requires InRange(f)
  {
    Numeral(EraYear(f.year)) + "-" + TwoDigitsOf(f.month) + "-" + TwoDigitsOf(f.day)
    + "T" + TwoDigitsOf(f.hour) + ":" + TwoDigitsOf(f.minute)
  }

  function Show(z: Zone, instant: int): string {
    ShowFields(Split(Reads(z, instant)))
  }

  method WallClockInZone(instant: Option<int>, z: Zone) returns (s: string)
    ensures s == if instant.None? then "" else Show(z, instant.value)
  {
    hide Numeral, Value, DateOfDay, OffsetAt;
    if instant.None? { return ""; }
    var parts := FormatToParts(z, instant.value, false);
    assert parts[0].kind == "year" && parts[2].kind == "month" && parts[4].kind == "day";
    assert parts[6].kind == "hour" && parts[8].kind == "minute";
    var field := CollectFields(parts);
    ghost var f := Split(Reads(z, instant.value));
    assert field["year"] == Numeral(EraYear(f.year)) && field["month"] == TwoDigitsOf(f.month);
    assert field["day"] == TwoDigitsOf(f.day) && field["hour"] == TwoDigitsOf(f.hour);
    assert field["minute"] == TwoDigitsOf(f.minute);
    s := field["year"] + "-" + field["month"] + "-" + field["day"] + "T" + field["hour"] + ":" + field["minute"];
  }

  /**
   Spaced transitions, offsets of at most a day, and whole-minute offsets at the instants within `m` of `w`.
   Only those are consulted, so a zone may begin with a local mean time in seconds, as Europe/Rome does.
   */
  ghost predicate Regular(z: Zone, m: int, w: int) {
    Spaced(z, m) && m <= DAY && forall t :: w - m <= t <= w + m ==> OffsetAt(z, t) % MINUTE == 0
  }

  /** Europe/Rome from its local mean time of 49 minutes 56 seconds to the whole hour of November 1893. */
  const ROME_OF_1893 := Zone(2_996_000, [Transition(-2_403_565_200_000, HOUR)])

  lemma RegularOnceInMinutes(w: int)
    ensures Regular(ROME_OF_1893, HOUR, w) <==> w >= HOUR - 2_403_565_200_000
  {
    forall t { OneTransition(ROME_OF_1893, t); }
    assert OffsetAt(ROME_OF_1893, w - HOUR) % MINUTE == 0 <==> w - HOUR >= -2_403_565_200_000;
  }

  /** From year 101 on the reported offsets are the true ones, so the two passes are those of `Resolve`. */
  lemma ReportedResolveIsResolve(z: Zone, m: int, w: int)
    requires Regular(z, m, w) && w % SECOND == 0 && Split(w).year > 100
    ensures ReportedResolve(z, w) == Resolve(z, w)
  {
    hide OffsetAt, ReportedOffset, Split;
    OffsetBounded(z, w, m);
    var t := Pass(z, w, w);
    MinutesAreSeconds(OffsetAt(z, w));
    MinutesAreSeconds(OffsetAt(z, t));
    SubSecond(w, -OffsetAt(z, w));
    ReportedNear(z, m, w, w);
    ReportedNear(z, m, w, t);
    PassesAgree(z, w);
  }

  lemma MinutesAreSeconds(ms: int)
    requires ms % MINUTE == 0
    ensures ms % SECOND == 0 && -ms % SECOND == 0
  {
    DivModUnique(ms, SECOND, 60 * (ms / MINUTE), 0);
    DivModUnique(-ms, SECOND, -60 * (ms / MINUTE), 0);
  }

  lemma PassesAgree(z: Zone, w: int)
    requires ReportedOffset(z, w) == OffsetAt(z, w)
    requires ReportedOffset(z, w - OffsetAt(z, w)) == OffsetAt(z, w - OffsetAt(z, w))
    ensures ReportedResolve(z, w) == Resolve(z, w)
  {
    hide ReportedOffset, OffsetAt;
    assert ReportedPass(z, w, w) == Pass(z, w, w);
  }

  lemma ReportedNear(z: Zone, m: int, w: int, t: int)
    requires Spaced(z, m) && m <= DAY && OffsetAt(z, t) % SECOND == 0
    requires t % SECOND == 0 && t >= w - m && Split(w).year > 100
    ensures ReportedOffset(z, t) == OffsetAt(z, t)
  {
    var y := Split(w).year;
    OffsetBounded(z, t, m);
    YearOfSplit(w, y);
    YearLength(y - 1);
    YearOfSplit(Reads(z, t), y - 1);
    ReportedOffsetExactly(z, t);
  }

  // ---- Texts that are accepted, and what they mean ----

  /** The shape as the pieces that a text is put together from. */
  ghost predicate Assembled(t: string, year: string, month: string, day: string, hour: string, minute: string, tail: string) {
    && |year| == 4 && |month| == |day| == |hour| == |minute| == 2
    && AllDigits(year) && AllDigits(month) && AllDigits(day) && AllDigits(hour) && AllDigits(minute)
    && (tail == "" || (|tail| == 3 && tail[0] == ':' && AllDigits(tail[1..])))
    && t == year + "-" + month + "-" + day + "T" + hour + ":" + minute + tail
  }

  /** A text is accepted exactly when, trimmed, it is assembled so; each field is the number its piece denotes. */
  lemma AcceptedTexts(s: string)
    ensures Parse(s).Some? <==>
              exists year, month, day, hour, minute, tail :: Assembled(Trim(s), year, month, day, hour, minute, tail)
  {
    var t := Trim(s);
    if Parse(s).Some? {
      var tail := t[16..];
      assert |t| == 19 ==> tail[1..] == t[17..19];
      assert t == t[0..4] + "-" + t[5..7] + "-" + t[8..10] + "T" + t[11..13] + ":" + t[14..16] + tail;
      assert Assembled(t, t[0..4], t[5..7], t[8..10], t[11..13], t[14..16], tail);
    }
    if year, month, day, hour, minute, tail :| Assembled(t, year, month, day, hour, minute, tail) {
      FieldsOfText(s, year, month, day, hour, minute, tail);
    }
  }

  lemma FieldsOfText(s: string, year: string, month: string, day: string, hour: string, minute: string, tail: string)
    requires Assembled(Trim(s), year, month, day, hour, minute, tail)
    ensures Parse(s) == Some(Fields(Value(year), Value(month), Value(day), Value(hour), Value(minute),
                                    if tail == "" then 0 else Value(tail[1..])))
  {
    hide Value, Trim;
    var t := Trim(s);
    var head := year + "-" + month + "-" + day + "T" + hour + ":" + minute;
    Pieces(year, month, day, hour, minute);
    assert t == head + tail && |head| == 16;
    assert t[0..4] == head[0..4] && t[5..7] == head[5..7] && t[8..10] == head[8..10];
    assert t[11..13] == head[11..13] && t[14..16] == head[14..16];
    assert tail != "" ==> t[16] == tail[0] && t[17..19] == tail[1..];
  }

  // ---- Round trips ----  // ---- Round trips ----

  /** In range, to the minute, and with a year that prints as four digits. */
  predicate Printable(f: Fields) {
    InRange(f) && f.second == 0 && 1000 <= f.year <= 9999
  }

  lemma NumeralLength(n: nat)
    ensures |Numeral(n)| == 4 <==> 1000 <= n <= 9999
  {
    assert |Numeral(n / 1000)| == 1 <==> n / 1000 < 10;
    assert n >= 10 ==> |Numeral(n)| == 1 + |Numeral(n / 10)|;
    assert n >= 100 ==> |Numeral(n / 10)| == 1 + |Numeral(n / 10 / 10)|;
    assert n >= 1000 ==> |Numeral(n / 10 / 10)| == 1 + |Numeral(n / 10 / 10 / 10)|;
    assert n / 10 / 10 / 10 == n / 1000 && n / 10 / 10 == n / 100;
  }

  /** Where the pieces of `year-month-dayThour:minute` stand when the year has `n` digits. */
  lemma Pieces(n: string, month: string, day: string, hour: string, minute: string)
    requires |n| >= 1 && |month| == 2 && |day| == 2 && |hour| == 2 && |minute| == 2
    ensures var s := n + "-" + month + "-" + day + "T" + hour + ":" + minute;
            && |s| == |n| + 12 && s[0] == n[0] && s[|s| - 1] == minute[1]
            && (|n| > 4 ==> s[4] == n[4])
            && (|n| == 4 ==>
                  && s[4] == '-' && s[7] == '-' && s[10] == 'T' && s[13] == ':'
                  && s[0..4] == n && s[5..7] == month && s[8..10] == day && s[11..13] == hour && s[14..16] == minute)
  {
  }

  /** What prints with a four-digit year parses back to the printed fields; anything else does not parse. */
  lemma ShownFieldsParse(f: Fields)
    requires InRange(f) && f.second == 0
    ensures var s := ShowFields(f);
            var p := Parse(s);
            if 1000 <= EraYear(f.year) <= 9999
            then |s| == 16 && p == Some(f.(year := EraYear(f.year)))
            else p == None
  {
    var n := Numeral(EraYear(f.year));
    var month, day, hour, minute :=
      TwoDigitsOf(f.month), TwoDigitsOf(f.day), TwoDigitsOf(f.hour), TwoDigitsOf(f.minute);
    var s := ShowFields(f);
    NumeralLength(EraYear(f.year));
    Pieces(n, month, day, hour, minute);
    assert IsDigit(n[0]) && IsDigit(minute[1]);
    TrimKeeps(s);
    if |n| > 4 {
      assert IsDigit(n[4]);
      assert !Matches(s);
    } else if |n| == 4 {
      assert Matches(s);
    }
  }

  /** Trimming never lengthens, so a text as long as its trimmed form has no space around it. */
  lemma TrimmedToFull(s: string)
    requires |s| == 16 && Parse(s).Some?
    ensures Trim(s) == s
  {
    TrimShortens(s);
  }

  /** Printing what was parsed gives the text back. */
  lemma ParsedFieldsShow(s: string)
    requires |s| == 16 && Parse(s).Some? && Printable(Parse(s).value)
    ensures ShowFields(Parse(s).value) == s
  {
    var f := Parse(s).value;
    TrimmedToFull(s);
    NumeralLength(f.year);
    ValueInjective(Numeral(f.year), s[0..4]);
    ValueInjective(TwoDigitsOf(f.month), s[5..7]);
    ValueInjective(TwoDigitsOf(f.day), s[8..10]);
    ValueInjective(TwoDigitsOf(f.hour), s[11..13]);
    ValueInjective(TwoDigitsOf(f.minute), s[14..16]);
    assert s == s[0..4] + [s[4]] + s[5..7] + [s[7]] + s[8..10] + [s[10]] + s[11..13] + [s[13]] + s[14..16];
  }

  lemma JoinToTheMinute(f: Fields)
    requires f.second == 0
    ensures Join(f) % MINUTE == 0
  {
    var d := MakeDay(f.year, f.month - 1, f.day);
    assert Join(f) == d * DAY + f.hour * HOUR + f.minute * MINUTE;
    DivModUnique(d * DAY + f.hour * HOUR + f.minute * MINUTE, MINUTE, 1440 * d + 60 * f.hour + f.minute, 0);
  }

  lemma SplitToTheMinute(local: int)
    requires local % MINUTE == 0
    ensures Split(local).second == 0 && Join(Split(local)) == local
  {
    JoinOfSplit(local);
    var n, ms := local / DAY, local % DAY;
    DivModUnique(local, MINUTE, 1440 * n + ms / MINUTE, ms % MINUTE);
    DivModUnique(local, SECOND, 60 * (local / MINUTE), 0);
  }

  /**
   Parse, resolve, print: the text comes back exactly when it is a real wall clock to the minute, without
   surrounding space, with a year from 1000 on, and not in a gap of the zone.
   */
  lemma TextRoundTrip(z: Zone, m: int, s: string)
    requires Parse(s).Some? && Regular(z, m, DateUTC(Parse(s).value))
    ensures var f := Parse(s).value;
            Show(z, ReportedResolve(z, DateUTC(f))) == s
            <==> |s| == 16 && Printable(f) && Readable(z, DateUTC(f))
  {
    var f := Parse(s).value;
    var w := DateUTC(f);
    if |s| == 16 && Printable(f) && Readable(z, w) {
      SplitOfJoin(f);
      JoinToTheMinute(f);
      DivModUnique(w, SECOND, 60 * (w / MINUTE), 0);
      ReportedResolveIsResolve(z, m, w);
      TwoPassesSuffice(z, w, m);
      ParsedFieldsShow(s);
    }
    if Show(z, ReportedResolve(z, w)) == s {
      ShownTextIsPrintable(z, m, s);
    }
  }

  lemma ShownTextIsPrintable(z: Zone, m: int, s: string)
    requires Parse(s).Some? && Regular(z, m, DateUTC(Parse(s).value))
    requires Show(z, ReportedResolve(z, DateUTC(Parse(s).value))) == s
    ensures |s| == 16 && Printable(Parse(s).value) && Readable(z, DateUTC(Parse(s).value))
  {
    var p := Parse(s).value;
    var w := DateUTC(p);
    var local := Reads(z, ReportedResolve(z, w));
    ShownFieldsOf(z, s, ReportedResolve(z, w));
    LateYear(p);
    JoinToTheMinute(p);
    ResolveIsLate(z, m, w, p.year);
    SplitToTheMinute(local);
    assert p == Split(local);
    assert local == w;
  }

  lemma ShownFieldsOf(z: Zone, s: string, t: int)
    requires Parse(s).Some? && Show(z, t) == s
    ensures var f := Split(Reads(z, t));
            && |s| == 16 && Parse(s).value == f.(year := EraYear(f.year), second := 0)
            && 1000 <= EraYear(f.year) <= 9999
  {
    var f := Split(Reads(z, t));
    ShownFieldsParse(f.(second := 0));
    assert ShowFields(f.(second := 0)) == s;
  }

  lemma LateYear(p: Fields)
    requires 1 <= p.month <= 12 && 1 <= p.day && 0 <= p.hour && 0 <= p.minute && 0 <= p.second
    requires p.year >= 1000
    ensures DateUTC(p) == Join(p) && Split(Join(p)).year >= p.year
  {
    JoinNotBefore(p, p.year);
    YearOfSplit(Join(p), p.year);
  }

  lemma ResolveIsLate(z: Zone, m: int, w: int, y: int)
    requires Regular(z, m, w) && w % MINUTE == 0 && Split(w).year >= y > 100
    ensures var t := ReportedResolve(z, w);
            t == Resolve(z, w) && Reads(z, t) % MINUTE == 0 && Split(Reads(z, t)).year >= y - 1
  {
    DivModUnique(w, SECOND, 60 * (w / MINUTE), 0);
    ReportedResolveIsResolve(z, m, w);
    ResolveIsNear(z, m, w);
    YearOfSplit(w, y);
    YearLength(y - 1);
    YearOfSplit(Reads(z, Resolve(z, w)), y - 1);
  }

  lemma ResolveIsNear(z: Zone, m: int, w: int)
    requires Regular(z, m, w) && w % MINUTE == 0
    ensures Reads(z, Resolve(z, w)) >= w - 2 * m
    ensures Reads(z, Resolve(z, w)) % MINUTE == 0
  {
    var t := Pass(z, w, w);
    OffsetBounded(z, w, m);
    OffsetBounded(z, t, m);
    OffsetBounded(z, Resolve(z, w), m);
    var a, b := OffsetAt(z, t), OffsetAt(z, Resolve(z, w));
    assert a % MINUTE == 0 && b % MINUTE == 0;
    DivModUnique(w - a + b, MINUTE, w / MINUTE - a / MINUTE + b / MINUTE, 0);
  }

  /**
   Print, parse, resolve: a minute-aligned instant comes back exactly when it is the one of its readings that
   the overlap rule picks.
   */
  lemma InstantRoundTrip(z: Zone, m: int, t: int)
    requires Regular(z, m, Reads(z, t)) && t % MINUTE == 0
    requires 1000 <= Split(Reads(z, t)).year <= 9999
    ensures Parse(Show(z, t)).Some?
    ensures var w := DateUTC(Parse(Show(z, t)).value);
            var c := ChangeNear(z, w, m);
            && w == Reads(z, t)
            && (ReportedResolve(z, w) == t <==>
                  (c.after < c.before && c.at + c.after <= w < c.at + c.before ==> (c.at <= w <==> c.at <= t)))
  {
    var w := Reads(z, t);
    OffsetBounded(z, t, m);
    ReadsToTheMinute(z, t);
    ShownReadsParse(z, t);
    ReportedResolveIsResolve(z, m, w);
    ResolveReads(z, t, m);
  }

  lemma ReadsToTheMinute(z: Zone, t: int)
    requires OffsetAt(z, t) % MINUTE == 0 && t % MINUTE == 0
    ensures Reads(z, t) % MINUTE == 0 && Reads(z, t) % SECOND == 0
  {
    var w := Reads(z, t);
    DivModUnique(w, MINUTE, t / MINUTE + OffsetAt(z, t) / MINUTE, 0);
    DivModUnique(w, SECOND, 60 * (w / MINUTE), 0);
  }

  lemma ShownReadsParse(z: Zone, t: int)
    requires Reads(z, t) % MINUTE == 0 && 1000 <= Split(Reads(z, t)).year <= 9999
    ensures Parse(Show(z, t)).Some? && DateUTC(Parse(Show(z, t)).value) == Reads(z, t)
  {
    SplitToTheMinute(Reads(z, t));
    PrintableParses(Split(Reads(z, t)));
  }

  lemma PrintableParses(f: Fields)
    requires Printable(f)
    ensures Parse(ShowFields(f)) == Some(f)
  {
    ShownFieldsParse(f);
    assert EraYear(f.year) == f.year;
  }

  // ---- Days and texts by name ----

  /** Days from the epoch to a date, by a formula that looks neither at other years nor at other months. */
  function DaysTo(year: int, month: int, day: int): int {
    365 * (year - 1970) + (year - 1969) / 4 - (year - 1901) / 100 + (year - 1601) / 400
    + (367 * month - 362) / 12 + (if month <= 2 then 0 else if IsLeap(year) then -1 else -2) + day - 1
  }

  lemma DateUTCExactly(f: Fields)
    requires 1 <= f.month <= 12
    ensures var days := DaysTo(if 0 <= f.year <= 99 then 1900 + f.year else f.year, f.month, f.day);
            DateUTC(f) == days * DAY + f.hour * HOUR + f.minute * MINUTE + f.second * SECOND
  {
    hide DaysTo, MakeDay;
    DaysToIsMakeDay(if 0 <= f.year <= 99 then 1900 + f.year else f.year, f.month, f.day);
  }

  lemma DaysToIsMakeDay(year: int, month: int, day: int)
    requires 1 <= month <= 12
    ensures MakeDay(year, month - 1, day) == DaysTo(year, month, day)
  {
    MakeDayInRange(Date(year, month, day));
    hide DayFromYear, DaysBeforeMonth, MakeDay;
    DayFromYearClosedForm(year);
    DaysBeforeMonthClosedForm(year, month);
  }

  lemma FieldsOf2026(s: string, month: string, day: string, hour: string, minute: string, tail: string)
    requires Assembled(s, "2026", month, day, hour, minute, tail)
    ensures Parse(s) == Some(Fields(2026, Value(month), Value(day), Value(hour), Value(minute),
                                    if tail == "" then 0 else Value(tail[1..])))
  {
    assert Value("2026") == 2026 by { ValueOfFour("2026"); }
    assert s[0] == '2' && IsDigit(s[|s| - 1]) by { LastOfAssembled(s, "2026", month, day, hour, minute, tail); }
    TrimKeeps(s);
    hide Value, Parse, Trim;
    FieldsOfText(s, "2026", month, day, hour, minute, tail);
  }

  lemma LastOfAssembled(s: string, year: string, month: string, day: string, hour: string, minute: string, tail: string)
    requires Assembled(s, year, month, day, hour, minute, tail)
    ensures |s| >= 16 && s[0] == year[0] && IsDigit(s[|s| - 1])
  {
    var head := year + "-" + month + "-" + day + "T" + hour + ":";
    if tail == "" {
      assert s == head + minute && s[|s| - 1] == minute[1];
    } else {
      assert s == head + minute + tail && s[|s| - 1] == tail[2] == tail[1..][1];
    }
  }

  /** What `zonedWallClockToUtcIso` makes of a text in a zone that exists. */
  ghost predicate ResolvesTo(s: string, z: Zone, ms: int) {
    Parse(s).Some? && ReportedResolve(z, DateUTC(Parse(s).value)) == ms
  }

  function TwoDigitNumber(s: string): int
    requires |s| == 2 && AllDigits(s)
  {
    10 * DigitValue(s[0]) + DigitValue(s[1])
  }

  lemma TextOf2026(s: string, month: string, day: string, hour: string, minute: string)
    requires Assembled(s, "2026", month, day, hour, minute, "")
    ensures Parse(s) == Some(Fields(2026, TwoDigitNumber(month), TwoDigitNumber(day), TwoDigitNumber(hour), TwoDigitNumber(minute), 0))
  {
    FieldsOf2026(s, month, day, hour, minute, "");
    ValueOfTwo(month);
    ValueOfTwo(day);
    ValueOfTwo(hour);
    ValueOfTwo(minute);
    hide Value, Parse;
  }

  lemma TimeIn2026(month: int, day: int, hour: int, minute: int)
    requires 3 <= month <= 12
    ensures DateUTC(Fields(2026, month, day, hour, minute, 0))
            == (((20_451 + (367 * month - 362) / 12 + day) * 24 + hour) * 60 + minute) * MINUTE
  {
    DateUTCExactly(Fields(2026, month, day, hour, minute, 0));
    hide DateUTC;
  }

  /** Rome and New York in 2026 meet the hypotheses of every theorem here with offsets of at most five hours. */
  lemma RegularIn2026(z: Zone, w: int)
    requires z == ROME || z == NEW_YORK
    ensures Regular(z, 5 * HOUR, w)
    ensures w >= 0 ==> Split(w).year > 100
  {
    forall t ensures OffsetAt(z, t) % MINUTE == 0 { TwoTransitions(z, t); }
    if w >= 0 {
      DayFromYearClosedForm(101);
      YearOfSplit(w, 101);
    }
  }

  lemma TextResolves(s: string, z: Zone, w: int, ms: int)
    requires z == ROME || z == NEW_YORK
    requires Parse(s).Some? && DateUTC(Parse(s).value) == w >= 0 && w % SECOND == 0 && Resolve(z, w) == ms
    ensures ResolvesTo(s, z, ms)
  {
    hide Parse, DateUTC, Resolve, ReportedResolve;
    RegularIn2026(z, w);
    ReportedResolveIsResolve(z, 5 * HOUR, w);
  }

  lemma Typed(s: string, month: string, day: string, hour: string, minute: string, z: Zone, w: int, ms: int)
    requires Assembled(s, "2026", month, day, hour, minute, "")
    requires 3 <= TwoDigitNumber(month) <= 12 && (z == ROME || z == NEW_YORK)
    requires w == (((20_451 + (367 * TwoDigitNumber(month) - 362) / 12 + TwoDigitNumber(day)) * 24
                    + TwoDigitNumber(hour)) * 60 + TwoDigitNumber(minute)) * MINUTE
    requires w >= 0 && w % SECOND == 0 && Resolve(z, w) == ms
    ensures ResolvesTo(s, z, ms)
  {
    TextOf2026(s, month, day, hour, minute);
    TimeIn2026(TwoDigitNumber(month), TwoDigitNumber(day), TwoDigitNumber(hour), TwoDigitNumber(minute));
    hide *;
    TextResolves(s, z, w, ms);
  }

  /** The gap and the overlap of schedule.js:60-65 as typed, and a day that no change is near. */
  lemma MeasuredInRome()
    ensures ResolvesTo("2026-03-29T02:30", ROME, 1_774_747_800_000)
    ensures ResolvesTo("2026-10-25T02:30", ROME, 1_792_891_800_000)
    ensures ResolvesTo("2026-09-01T09:30", ROME, 1_788_247_800_000)
  {
    hide ResolvesTo, Resolve, Value;
    MeasuredCases();
    OrdinaryDay();
    Typed("2026-03-29T02:30", "03", "29", "02", "30", ROME, 1_774_751_400_000, 1_774_747_800_000);
    Typed("2026-10-25T02:30", "10", "25", "02", "30", ROME, 1_792_895_400_000, 1_792_891_800_000);
    Typed("2026-09-01T09:30", "09", "01", "09", "30", ROME, 1_788_255_000_000, 1_788_247_800_000);
  }

  lemma MeasuredInNewYork()
    ensures ResolvesTo("2026-03-08T02:30", NEW_YORK, 1_772_951_400_000)
    ensures ResolvesTo("2026-11-01T01:30", NEW_YORK, 1_793_511_000_000)
  {
    hide ResolvesTo, Resolve, Value;
    MeasuredCases();
    Typed("2026-03-08T02:30", "03", "08", "02", "30", NEW_YORK, 1_772_937_000_000, 1_772_951_400_000);
    Typed("2026-11-01T01:30", "11", "01", "01", "30", NEW_YORK, 1_793_496_600_000, 1_793_511_000_000);
  }

  lemma OrdinaryDay()
    ensures Resolve(ROME, 1_788_255_000_000) == 1_788_247_800_000
  {
    forall t { TwoTransitions(ROME, t); }
  }
}
