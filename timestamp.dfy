/**
 * The timestamp work of `NewsAdapter.getView`: the `Z$` rewrite, the strict
 * reading of `yyyy-MM-dd'T'HH:mm:ssZ`, the instant it denotes, and the two
 * display patterns `LLL dd, yyyy` and `hh:mm a`, rendered in a host zone
 * given as a fixed offset with English month names.
 */
module Timestamp {
  import opened Wrappers
  import opened Decimal
  import opened Calendar

  // ---------------------------------------------------------------------------
  // The rewrite `replaceAll("Z$", "+0000")`

  /** The characters Java's regular expressions treat as line terminators. */
  predicate IsLineTerminator(c: char)
  {
    c == '\n' || c == '\r' || c == '\U{85}' || c == '\U{2028}' || c == '\U{2029}'
  }

  /**
   * Length of the line terminator that ends `s`, if any. Java's `$` matches at
   * the end of the input and also just before such a final terminator.
   */
  function FinalTerminatorLength(s: string): (n: nat)
    ensures n <= |s| && n <= 2
    ensures n > 0 ==> IsLineTerminator(s[|s| - 1])
  {
    if |s| >= 2 && s[|s| - 2] == '\r' && s[|s| - 1] == '\n' then 2
    else if |s| >= 1 && IsLineTerminator(s[|s| - 1]) then 1
    else 0
  }

  /** Where the anchored pattern `Z$` can match: the position just after that `Z`. */
  function AnchorIndex(s: string): nat
  {
    |s| - FinalTerminatorLength(s)
  }

  predicate EndsWithAnchoredZ(s: string)
  {
    AnchorIndex(s) > 0 && s[AnchorIndex(s) - 1] == 'Z'
  }

  /**
   * `s.replaceAll("Z$", "+0000")`: the one `Z` the anchored pattern can match
   * becomes the numeric zone `+0000`; every other character stays where it was.
   */
  function ReplaceTrailingZ(s: string): (r: string)
    ensures var k := AnchorIndex(s);
      if EndsWithAnchoredZ(s) then
        |r| == |s| + 4 && r[..k - 1] == s[..k - 1] && r[k - 1..k + 4] == "+0000" && r[k + 4..] == s[k..]
      else r == s
  {
    var k := AnchorIndex(s);
    if EndsWithAnchoredZ(s) then s[..k - 1] + "+0000" + s[k..] else s
  }

  // ---------------------------------------------------------------------------
  // Reading `yyyy-MM-dd'T'HH:mm:ssZ`

  predicate DigitsAt(s: string, i: nat, n: nat)
  {
    i + n <= |s| && AllDigits(s[i..i + n])
  }

  function NumberAt(s: string, i: nat, n: nat): nat
    requires DigitsAt(s, i, n)
  {
    Value(s[i..i + n])
  }

  /** A time of day to the second. */
  datatype ClockTime = ClockTime(hour: int, minute: int, second: int)

  /** The fields of a timestamp; `offset` is the zone offset in minutes east of UTC. */
  datatype Fields = Fields(date: Date, clock: ClockTime, offset: int)

  predicate ValidDatePart(d: Date)
  {
    1583 <= d.year <= 9999 && ValidDate(d.year, d.month, d.day)
  }

  predicate ValidClock(c: ClockTime)
  {
    0 <= c.hour < 24 && 0 <= c.minute < 60 && 0 <= c.second < 60
  }

  predicate ValidOffset(offset: int)
  {
    -1440 < offset < 1440
  }

  /** Fields the strict reading accepts: every field in range, no rollover. */
  predicate ValidFields(f: Fields)
  {
    ValidDatePart(f.date) && ValidClock(f.clock) && ValidOffset(f.offset)
  }

  /** `yyyy-MM-dd`, each field at its pattern width. */
  function ParseDate(s: string): (r: Option<Date>)
    ensures r.Some? ==> ValidDatePart(r.value)
  {
    if |s| == 10 && DigitsAt(s, 0, 4) && s[4] == '-' && DigitsAt(s, 5, 2) && s[7] == '-' && DigitsAt(s, 8, 2)
      && ValidDatePart(Date(NumberAt(s, 0, 4), NumberAt(s, 5, 2), NumberAt(s, 8, 2)))
    then Some(Date(NumberAt(s, 0, 4), NumberAt(s, 5, 2), NumberAt(s, 8, 2)))
    else None
  }

  /** `HH:mm:ss`, each field two digits. */
  function ParseClock(s: string): (r: Option<ClockTime>)
    ensures r.Some? ==> ValidClock(r.value)
  {
    if |s| == 8 && DigitsAt(s, 0, 2) && s[2] == ':' && DigitsAt(s, 3, 2) && s[5] == ':' && DigitsAt(s, 6, 2)
      && ValidClock(ClockTime(NumberAt(s, 0, 2), NumberAt(s, 3, 2), NumberAt(s, 6, 2)))
    then Some(ClockTime(NumberAt(s, 0, 2), NumberAt(s, 3, 2), NumberAt(s, 6, 2)))
    else None
  }

  /**
   * `±hhmm` in minutes east of UTC. The hours may not exceed 23 nor the
   * minutes 59, as in the library's reading of a numeric zone.
   */
  function ParseZone(s: string): (r: Option<int>)
    ensures r.Some? ==> ValidOffset(r.value)
  {
    if |s| == 5 && (s[0] == '+' || s[0] == '-') && DigitsAt(s, 1, 2) && DigitsAt(s, 3, 2)
      && NumberAt(s, 1, 2) <= 23 && NumberAt(s, 3, 2) <= 59
    then
      var minutes := NumberAt(s, 1, 2) * 60 + NumberAt(s, 3, 2);
      Some(if s[0] == '-' then -minutes else minutes)
    else None
  }

  /**
   * `formatter.parse`: `None` where the source's `ParseException` is thrown.
   * Only the pattern's own shape is accepted, 24 characters long.
   */
  function Parse(s: string): (r: Option<Fields>)
    ensures r.Some? ==> |s| == 24 && s[10] == 'T' && ValidFields(r.value)
  {
    if |s| != 24 || s[10] != 'T' then None
    else
      match (ParseDate(s[..10]), ParseClock(s[11..19]), ParseZone(s[19..]))
      case (Some(d), Some(c), Some(z)) => Some(Fields(d, c, z))
      case _ => None
  }

  function Abs(x: int): nat { if x < 0 then -x else x }

  function RenderDate(d: Date): string
    requires ValidDatePart(d)
  {
    ZeroPad(d.year, 4) + "-" + ZeroPad(d.month, 2) + "-" + ZeroPad(d.day, 2)
  }

  function RenderClock(c: ClockTime): string
    requires ValidClock(c)
  {
    ZeroPad(c.hour, 2) + ":" + ZeroPad(c.minute, 2) + ":" + ZeroPad(c.second, 2)
  }

  function RenderZone(offset: int): string
  {
    (if offset < 0 then "-" else "+") + ZeroPad(Abs(offset) / 60, 2) + ZeroPad(Abs(offset) % 60, 2)
  }

  /** The same pattern's formatting direction: the text `Parse` reads back. */
  function Render(f: Fields): string
    requires ValidFields(f)
  {
    RenderDate(f.date) + "T" + RenderClock(f.clock) + RenderZone(f.offset)
  }

  // ---------------------------------------------------------------------------
  // The instant and its wall-clock reading in the host zone

  /** Seconds since 1970-01-01T00:00:00Z of the instant the fields denote. */
  function EpochSeconds(f: Fields): int
    requires ValidFields(f)
  {
    DaysFromCivil(f.date.year, f.date.month, f.date.day) * 86400
      + f.clock.hour * 3600 + f.clock.minute * 60 + f.clock.second - f.offset * 60
  }

  /** A reading of a clock to the minute. */
  datatype WallClock = WallClock(date: Date, hour: int, minute: int)

  function WallClockSeconds(w: WallClock): int
    requires 1 <= w.date.month <= 12
  {
    DaysFromCivil(w.date.year, w.date.month, w.date.day) * 86400 + w.hour * 3600 + w.minute * 60
  }

  /**
   * The reading, in a zone `hostOffset` minutes east of UTC, of a clock at
   * instant `t`: the valid date and time whose minute holds `t`.
   */
  function ToWallClock(t: int, hostOffset: int): (w: WallClock)
    ensures ValidDate(w.date.year, w.date.month, w.date.day) && 0 <= w.hour < 24 && 0 <= w.minute < 60
    ensures WallClockSeconds(w) <= t + hostOffset * 60 < WallClockSeconds(w) + 60
  {
    var local := t + hostOffset * 60;
    var secondOfDay := local % 86400;
    WallClock(CivilFromDays(local / 86400), secondOfDay / 3600, secondOfDay % 3600 / 60)
  }

  // ---------------------------------------------------------------------------
  // `formatDate` and `formatTime`

  const MonthAbbreviations: seq<string> :=
    ["Jan", "Feb", "Mar", "Apr", "May", "Jun", "Jul", "Aug", "Sep", "Oct", "Nov", "Dec"]

  /** The year as the calendar's `YEAR` field shows it: counted within its era. */
  function YearOfEra(y: int): nat
  {
    if y > 0 then y else 1 - y
  }

  /** `new SimpleDateFormat("LLL dd, yyyy").format(date)`. */
  function FormatDate(t: int, hostOffset: int): string
  {
    var w := ToWallClock(t, hostOffset);
    MonthAbbreviations[w.date.month - 1] + " " + ZeroPad(w.date.day, 2) + ", " + ZeroPad(YearOfEra(w.date.year), 4)
  }

  /** The hour on a twelve-hour dial, where 0 shows as 12. */
  function ClockHour(h: int): int
  {
    if h % 12 == 0 then 12 else h % 12
  }

  function Meridiem(h: int): string
  {
    if h < 12 then "AM" else "PM"
  }

  /** `new SimpleDateFormat("hh:mm a").format(date)`. */
  function FormatTime(t: int, hostOffset: int): string
  {
    var w := ToWallClock(t, hostOffset);
    ZeroPad(ClockHour(w.hour), 2) + ":" + ZeroPad(w.minute, 2) + " " + Meridiem(w.hour)
  }

  /** The two display texts `getView` writes on success. */
  datatype Display = Display(date: string, time: string)

  /** The instant a raw timestamp denotes after the rewrite; `None` where `parse` throws. */
  function Instant(raw: string): Option<int>
  {
    match Parse(ReplaceTrailingZ(raw))
    case None => None
    case Some(f) => Some(EpochSeconds(f))
  }

  /** The rewrite, the parse and both formats; `None` where `getView` catches a `ParseException`. */
  function Normalize(raw: string, hostOffset: int): Option<Display>
  {
    match Instant(raw)
    case None => None
    case Some(t) => Some(Display(FormatDate(t, hostOffset), FormatTime(t, hostOffset)))
  }

  // ---------------------------------------------------------------------------
  // Properties of the rewrite

  /** Without a final line terminator the rewrite touches exactly a last `Z`. */
  lemma ReplaceTrailingZPlain(s: string)
    requires |s| == 0 || !IsLineTerminator(s[|s| - 1])
    ensures |s| > 0 && s[|s| - 1] == 'Z' ==> ReplaceTrailingZ(s) == s[..|s| - 1] + "+0000"
    ensures |s| == 0 || s[|s| - 1] != 'Z' ==> ReplaceTrailingZ(s) == s
  {
  }

  /** A second rewrite changes nothing: the new text ends in `0`, not `Z`. */
  lemma ReplaceTrailingZIdempotent(s: string)
    ensures ReplaceTrailingZ(ReplaceTrailingZ(s)) == ReplaceTrailingZ(s)
  {
    var r := ReplaceTrailingZ(s);
    if EndsWithAnchoredZ(s) {
      var k := AnchorIndex(s);
      var n := FinalTerminatorLength(s);
      assert r[k + 4..] == s[k..];
      assert r[k + 3] == '0';
      assert |r| - n == k + 4;
      assert FinalTerminatorLength(r) == n;
    }
  }

  /** Text the rewrite has already seen shows the same as the original. */
  lemma NormalizeAfterRewrite(raw: string, hostOffset: int)
    ensures Normalize(ReplaceTrailingZ(raw), hostOffset) == Normalize(raw, hostOffset)
  {
    ReplaceTrailingZIdempotent(raw);
  }

  /** `Z` and `+0000` name the same zone: both spellings denote the same instant and show the same. */
  lemma ZoneSpellingsAgree(p: string, hostOffset: int)
    ensures Instant(p + "Z") == Instant(p + "+0000")
    ensures Normalize(p + "Z", hostOffset) == Normalize(p + "+0000", hostOffset)
  {
    ReplaceFinalZ(p);
    KeepNumericZone(p);
  }

  /** A text that ends in `Z` gets `+0000` in its place. */
  lemma ReplaceFinalZ(p: string)
    ensures ReplaceTrailingZ(p + "Z") == p + "+0000"
  {
    assert (p + "Z")[..|p|] == p;
  }

  /** A text that ends in a numeric zone is left alone. */
  lemma KeepNumericZone(p: string)
    ensures ReplaceTrailingZ(p + "+0000") == p + "+0000"
  {
    assert (p + "+0000")[|p| + 4] == '0';
  }

  // ---------------------------------------------------------------------------
  // Reading and writing the timestamp pattern are inverse

  lemma Pow10Values()
    ensures Pow10(2) == 100 && Pow10(4) == 10000
  {
    assert Pow10(1) == 10;
    assert Pow10(3) == 1000;
  }

  /** The pieces of a three-field text at their positions. */
  lemma ThreeFieldsLayout(a: string, x: char, b: string, y: char, c: string)
    ensures var t := a + [x] + b + [y] + c;
      var i, j := |a| + 1, |a| + 1 + |b| + 1;
      && t[..|a|] == a && t[|a|] == x && t[i..i + |b|] == b && t[i + |b|] == y && t[j..] == c
  {
    var t := a + [x] + b + [y] + c;
    assert t == a + ([x] + b + [y] + c);
  }

  lemma ParseRenderDate(d: Date)
    requires ValidDatePart(d)
    ensures ParseDate(RenderDate(d)) == Some(d)
  {
    Pow10Values();
    var s := RenderDate(d);
    ThreeFieldsLayout(ZeroPad(d.year, 4), '-', ZeroPad(d.month, 2), '-', ZeroPad(d.day, 2));
    assert s[0..4] == ZeroPad(d.year, 4) && s[5..7] == ZeroPad(d.month, 2) && s[8..10] == ZeroPad(d.day, 2);
  }

  lemma ParseRenderClock(c: ClockTime)
    requires ValidClock(c)
    ensures ParseClock(RenderClock(c)) == Some(c)
  {
    Pow10Values();
    var s := RenderClock(c);
    ThreeFieldsLayout(ZeroPad(c.hour, 2), ':', ZeroPad(c.minute, 2), ':', ZeroPad(c.second, 2));
    assert s[0..2] == ZeroPad(c.hour, 2) && s[3..5] == ZeroPad(c.minute, 2) && s[6..8] == ZeroPad(c.second, 2);
  }

  lemma ParseRenderZone(offset: int)
    requires ValidOffset(offset)
    ensures ParseZone(RenderZone(offset)) == Some(offset)
  {
    Pow10Values();
    var s := RenderZone(offset);
    var h, m := ZeroPad(Abs(offset) / 60, 2), ZeroPad(Abs(offset) % 60, 2);
    assert s[1..3] == h && s[3..5] == m;
  }

  /** The three parts of a 24-character timestamp at their positions. */
  lemma TimestampLayout(a: string, b: string, c: string)
    requires |a| == 10 && |b| == 8 && |c| == 5
    ensures var s := a + "T" + b + c;
      |s| == 24 && s[..10] == a && s[10] == 'T' && s[11..19] == b && s[19..] == c
  {
  }

  /** Every valid set of fields is read back from its own rendering. */
  lemma {:induction false} ParseRender(f: Fields)
    requires ValidFields(f)
    ensures Parse(Render(f)) == Some(f)
  {
    ParseRenderDate(f.date);
    ParseRenderClock(f.clock);
    ParseRenderZone(f.offset);
    TimestampLayout(RenderDate(f.date), RenderClock(f.clock), RenderZone(f.offset));
  }

  lemma RenderParseDate(s: string)
    requires ParseDate(s).Some?
    ensures RenderDate(ParseDate(s).value) == s
  {
    ZeroPadOfValue(s[0..4]);
    ZeroPadOfValue(s[5..7]);
    ZeroPadOfValue(s[8..10]);
    ThreeFieldsLayout(s[0..4], '-', s[5..7], '-', s[8..10]);
    assert s == s[0..4] + [s[4]] + s[5..7] + [s[7]] + s[8..10];
  }

  lemma RenderParseClock(s: string)
    requires ParseClock(s).Some?
    ensures RenderClock(ParseClock(s).value) == s
  {
    ZeroPadOfValue(s[0..2]);
    ZeroPadOfValue(s[3..5]);
    ZeroPadOfValue(s[6..8]);
    ThreeFieldsLayout(s[0..2], ':', s[3..5], ':', s[6..8]);
    assert s == s[0..2] + [s[2]] + s[3..5] + [s[5]] + s[6..8];
  }

  /** A zone text is its own rendering, but `-0000` renders as `+0000`. */
  lemma RenderParseZone(s: string)
    requires ParseZone(s).Some?
    ensures RenderZone(ParseZone(s).value) == if ParseZone(s).value == 0 then "+" + s[1..] else s
  {
    var z := ParseZone(s).value;
    ZoneDigits(s);
    assert RenderZone(z) == (if z < 0 then "-" else "+") + s[1..3] + s[3..5];
    ZoneLayout(s);
  }

  /** The hours and minutes of a zone, rendered, are its own digits. */
  lemma ZoneDigits(s: string)
    requires ParseZone(s).Some?
    ensures var a := Abs(ParseZone(s).value);
      ZeroPad(a / 60, 2) == s[1..3] && ZeroPad(a % 60, 2) == s[3..5]
  {
    var h, m := NumberAt(s, 1, 2), NumberAt(s, 3, 2);
    assert Abs(ParseZone(s).value) == h * 60 + m;
    HoursAndMinutes(h, m);
    ZeroPadOfValue(s[1..3]);
    ZeroPadOfValue(s[3..5]);
  }

  /** Splitting minutes into hours and minutes undoes `h * 60 + m`. */
  lemma HoursAndMinutes(h: nat, m: nat)
    requires m < 60
    ensures (h * 60 + m) / 60 == h && (h * 60 + m) % 60 == m
  {
  }

  lemma ZoneLayout(s: string)
    requires |s| == 5
    ensures s[1..] == s[1..3] + s[3..5] && s == [s[0]] + s[1..]
  {
  }

  /** A 24-character text as its three parts, and with its zone sign replaced by `+`. */
  lemma TimestampSplit(s: string)
    requires |s| == 24 && s[10] == 'T'
    ensures s == s[..10] + "T" + s[11..19] + s[19..]
    ensures s[..19] + "+" + s[20..] == s[..10] + "T" + s[11..19] + ("+" + s[19..][1..])
  {
    assert s[19..][1..] == s[20..];
    assert s[..19] == s[..10] + "T" + s[11..19];
  }

  /**
   * Every accepted text is the rendering of what it reads as, except that a
   * zero offset written `-0000` renders as `+0000`.
   */
  lemma {:induction false} RenderParse(s: string)
    requires Parse(s).Some?
    ensures Parse(s).value.offset != 0 ==> Render(Parse(s).value) == s
    ensures Parse(s).value.offset == 0 ==> Render(Parse(s).value) == s[..19] + "+" + s[20..]
  {
    RenderParseDate(s[..10]);
    RenderParseClock(s[11..19]);
    RenderParseZone(s[19..]);
    TimestampSplit(s);
  }

  // ---------------------------------------------------------------------------
  // The wall clock and the formats

  /** Only one valid reading holds a given minute: `ToWallClock` is fully determined by its contract. */
  lemma WallClockUnique(t: int, hostOffset: int, w: WallClock)
    requires ValidDate(w.date.year, w.date.month, w.date.day) && 0 <= w.hour < 24 && 0 <= w.minute < 60
    requires WallClockSeconds(w) <= t + hostOffset * 60 < WallClockSeconds(w) + 60
    ensures ToWallClock(t, hostOffset) == w
  {
    var v := ToWallClock(t, hostOffset);
    var dw := DaysFromCivil(w.date.year, w.date.month, w.date.day);
    var dv := DaysFromCivil(v.date.year, v.date.month, v.date.day);
    assert dw * 1440 + w.hour * 60 + w.minute == dv * 1440 + v.hour * 60 + v.minute;
    assert dw == dv && w.hour == v.hour && w.minute == v.minute;
    CivilRoundTrip(w.date.year, w.date.month, w.date.day);
    CivilRoundTrip(v.date.year, v.date.month, v.date.day);
  }

  /** Read in its own zone, an accepted timestamp shows its own date, hour and minute. */
  lemma WallClockOfOwnZone(f: Fields)
    requires ValidFields(f)
    ensures ToWallClock(EpochSeconds(f), f.offset) == WallClock(f.date, f.clock.hour, f.clock.minute)
  {
    WallClockUnique(EpochSeconds(f), f.offset, WallClock(f.date, f.clock.hour, f.clock.minute));
  }

  /** The month a `LLL` abbreviation names, or 0 for any other text. */
  function MonthNumber(name: string): int
  {
    if name == "Jan" then 1 else if name == "Feb" then 2 else if name == "Mar" then 3
    else if name == "Apr" then 4 else if name == "May" then 5 else if name == "Jun" then 6
    else if name == "Jul" then 7 else if name == "Aug" then 8 else if name == "Sep" then 9
    else if name == "Oct" then 10 else if name == "Nov" then 11 else if name == "Dec" then 12
    else 0
  }

  /** The abbreviation names its month: `MonthNumber` reads back what `LLL` writes. */
  lemma MonthNumberOfAbbreviation(m: int)
    requires 1 <= m <= 12
    ensures |MonthAbbreviations[m - 1]| == 3 && MonthNumber(MonthAbbreviations[m - 1]) == m
  {
  }

  /**
   * `LLL dd, yyyy` shows the month's English abbreviation, the day in two
   * digits and the year of era in at least four; each can be read back.
   */
  lemma FormatDateShape(t: int, hostOffset: int)
    ensures var w, s := ToWallClock(t, hostOffset), FormatDate(t, hostOffset);
      && |s| >= 12 && s[3] == ' ' && s[6..8] == ", "
      && s[..3] == MonthAbbreviations[w.date.month - 1]
      && MonthNumber(s[..3]) == w.date.month
      && DigitsAt(s, 4, 2) && NumberAt(s, 4, 2) == w.date.day
      && AllDigits(s[8..]) && Value(s[8..]) == YearOfEra(w.date.year)
      && (YearOfEra(w.date.year) < 10000 ==> |s| == 12)
  {
    Pow10Values();
    var w := ToWallClock(t, hostOffset);
    MonthNumberOfAbbreviation(w.date.month);
    DateTextLayout(MonthAbbreviations[w.date.month - 1], ZeroPad(w.date.day, 2), ZeroPad(YearOfEra(w.date.year), 4));
  }

  lemma DateTextLayout(name: string, dd: string, yyyy: string)
    requires |name| == 3 && |dd| == 2
    ensures var s := name + " " + dd + ", " + yyyy;
      s[..3] == name && s[3] == ' ' && s[4..6] == dd && s[6..8] == ", " && s[8..] == yyyy
  {
    var s := name + " " + dd + ", " + yyyy;
    ThreeFieldsLayout(name, ' ', dd, ',', " " + yyyy);
    assert s == name + [' '] + dd + [','] + (" " + yyyy);
    assert (" " + yyyy)[1..] == yyyy;
  }

  /**
   * `hh:mm a` shows the hour on a twelve-hour dial (01 to 12), the minute and
   * the marker; hour, marker and minute give back the hour of day and minute.
   */
  lemma FormatTimeShape(t: int, hostOffset: int)
    ensures var w, s := ToWallClock(t, hostOffset), FormatTime(t, hostOffset);
      && |s| == 8 && s[2] == ':' && s[5] == ' ' && DigitsAt(s, 0, 2) && DigitsAt(s, 3, 2)
      && 1 <= NumberAt(s, 0, 2) <= 12 && NumberAt(s, 3, 2) == w.minute
      && (s[6..] == "AM" || s[6..] == "PM")
      && (s[6..] == "PM" <==> w.hour >= 12)
      && (NumberAt(s, 0, 2) == 12 <==> w.hour % 12 == 0)
      && NumberAt(s, 0, 2) % 12 + (if s[6..] == "PM" then 12 else 0) == w.hour
  {
    Pow10Values();
    var w, s := ToWallClock(t, hostOffset), FormatTime(t, hostOffset);
    var hh, mm := ZeroPad(ClockHour(w.hour), 2), ZeroPad(w.minute, 2);
    ThreeFieldsLayout(hh, ':', mm, ' ', Meridiem(w.hour));
    assert s == hh + [':'] + mm + [' '] + Meridiem(w.hour);
    ClockHourDial(w.hour);
  }

  /** The twelve-hour dial with its marker names every hour of the day once. */
  lemma ClockHourDial(h: int)
    requires 0 <= h < 24
    ensures 1 <= ClockHour(h) <= 12
    ensures ClockHour(h) % 12 + (if h >= 12 then 12 else 0) == h
  {
  }

  /** An accepted timestamp never ends in `Z` or a line terminator, so the rewrite leaves it alone. */
  lemma ReplaceTrailingZOfAccepted(s: string)
    requires Parse(s).Some?
    ensures ReplaceTrailingZ(s) == s
  {
    var zone := s[19..];
    assert ParseZone(zone).Some?;
    assert zone[3..5][1] == s[23];
    assert IsDigit(s[22]) && IsDigit(s[23]);
  }

  /** The digits of the date and clock fields, where their renderings put them. */
  lemma RenderedDigits(d: Date, c: ClockTime)
    requires ValidDatePart(d) && ValidClock(c)
    ensures RenderDate(d)[..4] == ZeroPad(d.year, 4) && RenderDate(d)[8..10] == ZeroPad(d.day, 2)
    ensures RenderClock(c)[3..5] == ZeroPad(c.minute, 2)
  {
    Pow10Values();
    ThreeFieldsLayout(ZeroPad(d.year, 4), '-', ZeroPad(d.month, 2), '-', ZeroPad(d.day, 2));
    ThreeFieldsLayout(ZeroPad(c.hour, 2), ':', ZeroPad(c.minute, 2), ':', ZeroPad(c.second, 2));
  }

  lemma SliceOfSlice(s: string, i: nat, j: nat, k: nat, l: nat)
    requires i <= j <= |s| && k <= l <= j - i
    ensures s[i..j][k..l] == s[i + k..i + l]
  {
    forall m | 0 <= m < l - k
      ensures s[i..j][k..l][m] == s[i + k..i + l][m]
    {
    }
  }

  /** An accepted timestamp's day, year and minute, rendered, are its own digits. */
  lemma AcceptedDigits(s: string)
    requires Parse(s).Some?
    ensures var f := Parse(s).value;
      && ZeroPad(f.date.day, 2) == s[8..10] && ZeroPad(f.date.year, 4) == s[..4]
      && ZeroPad(f.clock.minute, 2) == s[14..16]
  {
    var f := Parse(s).value;
    RenderParseDate(s[..10]);
    RenderParseClock(s[11..19]);
    RenderedDigits(f.date, f.clock);
    SliceOfSlice(s, 0, 10, 8, 10);
    SliceOfSlice(s, 0, 10, 0, 4);
    SliceOfSlice(s, 11, 19, 3, 5);
  }

  /** A wall clock reading of an accepted timestamp's own fields, formatted. */
  lemma FormatsOfFields(f: Fields, t: int, hostOffset: int)
    requires ValidFields(f) && ToWallClock(t, hostOffset) == WallClock(f.date, f.clock.hour, f.clock.minute)
    ensures FormatDate(t, hostOffset)
      == MonthAbbreviations[f.date.month - 1] + " " + ZeroPad(f.date.day, 2) + ", " + ZeroPad(f.date.year, 4)
    ensures FormatTime(t, hostOffset)
      == ZeroPad(ClockHour(f.clock.hour), 2) + ":" + ZeroPad(f.clock.minute, 2) + " " + Meridiem(f.clock.hour)
  {
  }

  /**
   * Shown in its own zone, an accepted timestamp's display repeats its day,
   * year and minute digits as written, with the month's name and the hour on
   * a twelve-hour dial.
   */
  lemma DisplayInOwnZone(s: string)
    requires Parse(s).Some?
    ensures var f := Parse(s).value;
      Normalize(s, f.offset) == Some(Display(
        MonthAbbreviations[f.date.month - 1] + " " + s[8..10] + ", " + s[..4],
        ZeroPad(ClockHour(f.clock.hour), 2) + ":" + s[14..16] + " " + Meridiem(f.clock.hour)))
  {
    var f := Parse(s).value;
    NormalizeAccepted(s, f.offset);
    WallClockOfOwnZone(f);
    FormatsOfFields(f, EpochSeconds(f), f.offset);
    AcceptedDigits(s);
  }

  /** An accepted timestamp shows the two formats of the instant it denotes. */
  lemma NormalizeAccepted(s: string, hostOffset: int)
    requires Parse(s).Some?
    ensures var t := EpochSeconds(Parse(s).value);
      Normalize(s, hostOffset) == Some(Display(FormatDate(t, hostOffset), FormatTime(t, hostOffset)))
  {
    ReplaceTrailingZOfAccepted(s);
  }

  /** The same instant written in two zones shows the same texts in every host zone. */
  lemma SameInstantSameDisplay(a: string, b: string, hostOffset: int)
    requires Parse(a).Some? && Parse(b).Some?
    requires EpochSeconds(Parse(a).value) == EpochSeconds(Parse(b).value)
    ensures Normalize(a, hostOffset) == Normalize(b, hostOffset)
  {
    NormalizeAccepted(a, hostOffset);
    NormalizeAccepted(b, hostOffset);
  }

  // ---------------------------------------------------------------------------
  // Examples

  lemma UtcExampleYear()
    ensures ZeroPad(2019, 4) == "2019"
  {
  }

  lemma UtcExampleTwoDigits()
    ensures ZeroPad(11, 2) == "11" && ZeroPad(5, 2) == "05"
    ensures ZeroPad(14, 2) == "14" && ZeroPad(30, 2) == "30" && ZeroPad(0, 2) == "00"
  {
  }

  lemma UtcExampleDate()
    ensures RenderDate(Date(2019, 11, 5)) == "2019-11-05"
  {
    UtcExampleYear();
    UtcExampleTwoDigits();
  }

  lemma UtcExampleClock()
    ensures RenderClock(ClockTime(14, 30, 0)) == "14:30:00"
  {
    UtcExampleTwoDigits();
  }

  lemma UtcExampleZone()
    ensures RenderZone(0) == "+0000"
  {
    UtcExampleTwoDigits();
  }

  /** The fields of the example story's timestamp, read from its `+0000` spelling. */
  lemma UtcExampleFields()
    ensures Parse("2019-11-05T14:30:00+0000") == Some(Fields(Date(2019, 11, 5), ClockTime(14, 30, 0), 0))
  {
    var f := Fields(Date(2019, 11, 5), ClockTime(14, 30, 0), 0);
    UtcExampleDate();
    UtcExampleClock();
    UtcExampleZone();
    assert Render(f) == "2019-11-05T14:30:00+0000";
    ParseRender(f);
  }

  /** The display texts `DisplayInOwnZone` gives for the example timestamp. */
  lemma UtcExampleDateText(s: string)
    requires s == "2019-11-05T14:30:00+0000"
    ensures MonthAbbreviations[10] + " " + s[8..10] + ", " + s[..4] == "Nov 05, 2019"
  {
    assert s[8..10] == "05" && s[..4] == "2019";
  }

  lemma UtcExampleTimeText(s: string)
    requires s == "2019-11-05T14:30:00+0000"
    ensures ZeroPad(ClockHour(14), 2) + ":" + s[14..16] + " " + Meridiem(14) == "02:30 PM"
  {
    assert ZeroPad(2, 2) == "02";
    assert s[14..16] == "30";
  }

  /** The example timestamp, shown in its own zone. */
  lemma UtcExampleDisplay(s: string, hostOffset: int)
    requires s == "2019-11-05T14:30:00+0000" && hostOffset == 0
    ensures Normalize(s, hostOffset) == Some(Display("Nov 05, 2019", "02:30 PM"))
  {
    UtcExampleFields();
    DisplayInOwnZone(s);
    UtcExampleDateText(s);
    UtcExampleTimeText(s);
  }

  /** The example timestamp's `Z` spelling after the rewrite. */
  lemma UtcExampleRewrite(raw: string)
    requires raw == "2019-11-05T14:30:00Z"
    ensures ReplaceTrailingZ(raw) == "2019-11-05T14:30:00+0000"
  {
  }

  /** A UTC timestamp written with `Z`, shown in a UTC host. */
  lemma UtcExample(raw: string, hostOffset: int)
    requires raw == "2019-11-05T14:30:00Z" && hostOffset == 0
    ensures Normalize(raw, hostOffset) == Some(Display("Nov 05, 2019", "02:30 PM"))
  {
    UtcExampleRewrite(raw);
    NormalizeAfterRewrite(raw, hostOffset);
    UtcExampleDisplay(ReplaceTrailingZ(raw), hostOffset);
  }

  /** Texts that are not timestamps of the pattern's shape are rejected. */
  lemma RejectedExamples(hostOffset: int)
    ensures Normalize("", hostOffset).None?
    ensures Normalize("garbage", hostOffset).None?
    ensures Normalize("not-a-date", hostOffset).None?
  {
  }

  /** Fractional seconds are not part of the pattern: the zone is looked for where they start. */
  lemma FractionalSecondsRejected(raw: string, hostOffset: int)
    requires raw == "2019-11-05T14:30:00.000Z"
    ensures Normalize(raw, hostOffset).None?
  {
    ReplaceFinalZ("2019-11-05T14:30:00.000");
    assert raw == "2019-11-05T14:30:00.000" + "Z";
  }
}
