# NewsApp list rows in Dafny

This project models how the NewsApp Android client turns one news story into
one row of its scrolling list, and proves properties of that model.

A story (`News`) is an immutable record of five texts: title, author, section,
raw publication timestamp and URL. `NewsAdapter.getView` binds a story to a
row. It reuses the row it is handed, or inflates a new one, and copies the
title, section and author into it. It then rewrites a final `Z` in the
timestamp to `+0000` and parses the result with the pattern
`yyyy-MM-dd'T'HH:mm:ssZ`. Only when that parse succeeds does it write the
date (`LLL dd, yyyy`) and the time (`hh:mm a`), rendered in the host's zone.
When the parse fails, the row's date and time stay as they were.

Modules:

- `Wrappers`: `Option`, for the outcome that is a value or a `ParseException`.
- `Decimal`: fixed-width digit fields.
  - `Value` reads them.
  - `ZeroPad` writes them as the date patterns do: at least the pattern's width, never cut short.
- `Calendar`: proleptic Gregorian day counting from 1970-01-01, in both directions, proved inverse.
- `Timestamp`:
  - the `Z$` rewrite, with Java's rule that `$` also matches just before a final line terminator;
  - a strict reading of the timestamp pattern and its formatting inverse;
  - the instant it denotes;
  - the wall-clock reading of that instant in a host zone;
  - the two display patterns.
- `NewsRecord`: the `News` record.
- `Adapter`:
  - the `Row` class, with five mutable texts;
  - the `NewsAdapter` class, whose `GetView` method is proved against the specification function `BoundRow`;
  - the properties of binding and recycling.

Two places where the code decides and the model follows it:

- **Comments versus patterns.** The comments give examples such as "Mar 3, 1984" and "4:30 PM". The patterns `dd` and `hh` zero-pad, so the model shows "Mar 03, 1984" and "04:30 PM".
- **Recycling leaves residue.** The Javadoc of `getView` (NewsAdapter.java:58-61) says the returned view displays information about the story at the given position. When the story's timestamp fails to parse, a recycled row also keeps the date and time of the story it showed before, next to the new story's title.
  - `Adapter.RecycledRow` proves this in general.
  - `Adapter.RecycledRowResidueExample` shows it on a concrete pair of stories.

Assumptions:

- The host zone is a fixed offset in minutes east of UTC, given to the adapter.
- Month names are the English ones.
- A freshly inflated row's texts are a parameter of the adapter, because the layout resource is not part of this model. The examples use empty strings.

## Model

| member | source | states |
|---|---|---|
| Decimal.ZeroPad | app/src/main/java/com/example/fedor/newsapp/NewsAdapter.java:125 | the rendering of a number field is all digits and has that number's value; it has at least the pattern's width and is never cut short; it is exactly that width when the number fits; it has no leading zero beyond the width |
| Decimal.ZeroPadOfValue | app/src/main/java/com/example/fedor/newsapp/NewsAdapter.java:93 | reading a fixed-width digit field and rendering its value at the same width gives the field back |
| Calendar.CivilFromDays | app/src/main/java/com/example/fedor/newsapp/NewsAdapter.java:125-126 | every day number has a valid calendar date, and that date's day count is the number |
| Calendar.CivilRoundTrip | app/src/main/java/com/example/fedor/newsapp/NewsAdapter.java:98 | the date of a valid date's day count is that date, so a parsed date is never moved |
| Timestamp.ReplaceTrailingZ | app/src/main/java/com/example/fedor/newsapp/NewsAdapter.java:98 | only a `Z` at the end, or just before one final line terminator, is replaced. It becomes `+0000`. Every character before it and the terminator after it are kept. Text without such a `Z` is unchanged |
| Timestamp.ReplaceTrailingZPlain | app/src/main/java/com/example/fedor/newsapp/NewsAdapter.java:98 | for text without a final line terminator: a final `Z` becomes `+0000`, and any other text is left alone |
| Timestamp.ReplaceTrailingZIdempotent | app/src/main/java/com/example/fedor/newsapp/NewsAdapter.java:98 | rewriting twice is rewriting once |
| Timestamp.NormalizeAfterRewrite | app/src/main/java/com/example/fedor/newsapp/NewsAdapter.java:98-111 | an already rewritten timestamp displays the same as the original |
| Timestamp.ReplaceFinalZ | app/src/main/java/com/example/fedor/newsapp/NewsAdapter.java:98 | any text followed by `Z` becomes that text followed by `+0000` |
| Timestamp.KeepNumericZone | app/src/main/java/com/example/fedor/newsapp/NewsAdapter.java:98 | text ending in `+0000` is left alone |
| Timestamp.ZoneSpellingsAgree | app/src/main/java/com/example/fedor/newsapp/NewsAdapter.java:93-111 | a timestamp written with `Z` and the same one written with `+0000` denote the same instant and display the same date and time |
| Timestamp.ParseDate | app/src/main/java/com/example/fedor/newsapp/NewsAdapter.java:93 | an accepted `yyyy-MM-dd` is a valid calendar date with a year from 1583 to 9999 |
| Timestamp.ParseClock | app/src/main/java/com/example/fedor/newsapp/NewsAdapter.java:93 | an accepted `HH:mm:ss` has hour 0-23, minute 0-59 and second 0-59 |
| Timestamp.ParseZone | app/src/main/java/com/example/fedor/newsapp/NewsAdapter.java:93 | an accepted `±hhmm` zone is less than a day from UTC |
| Timestamp.Parse | app/src/main/java/com/example/fedor/newsapp/NewsAdapter.java:93-98 | an accepted timestamp is 24 characters, has `T` at index 10, and reads as valid fields |
| Timestamp.ParseRender | app/src/main/java/com/example/fedor/newsapp/NewsAdapter.java:93 | every valid set of fields is read back unchanged from its own formatting in the pattern |
| Timestamp.RenderParse | app/src/main/java/com/example/fedor/newsapp/NewsAdapter.java:93 | every accepted timestamp is the formatting of what it reads as, except that a zero offset written `-0000` formats as `+0000` |
| Timestamp.RenderParseZone | app/src/main/java/com/example/fedor/newsapp/NewsAdapter.java:93 | a zone text is the formatting of the offset it reads as, except that `-0000` becomes `+0000` |
| Timestamp.ToWallClock | app/src/main/java/com/example/fedor/newsapp/NewsAdapter.java:125-126 | the host-zone reading of an instant is a valid date with hour 0-23 and minute 0-59, and its minute contains the instant shifted by the host offset |
| Timestamp.WallClockUnique | app/src/main/java/com/example/fedor/newsapp/NewsAdapter.java:133-134 | exactly one valid reading has that property, so the reading is fully determined |
| Timestamp.WallClockOfOwnZone | app/src/main/java/com/example/fedor/newsapp/NewsAdapter.java:93-111 | an accepted timestamp, read in its own zone, shows its own date, hour and minute |
| Timestamp.MonthNumberOfAbbreviation | app/src/main/java/com/example/fedor/newsapp/NewsAdapter.java:125 | each of the twelve `LLL` names is three letters long and names exactly its own month |
| Timestamp.FormatDateShape | app/src/main/java/com/example/fedor/newsapp/NewsAdapter.java:124-127 | the date text is the month's three-letter name, a space, a two-digit day, `, ` and a year of at least four digits (exactly four up to 9999). Month, day and year of era can each be read back from it |
| Timestamp.ClockHourDial | app/src/main/java/com/example/fedor/newsapp/NewsAdapter.java:133 | the twelve-hour dial shows 1-12, and together with the AM/PM marker it gives back every hour of the day |
| Timestamp.FormatTimeShape | app/src/main/java/com/example/fedor/newsapp/NewsAdapter.java:132-135 | the time text is a two-digit hour 01-12, `:`, a two-digit minute, a space and `AM` or `PM`. It is `PM` exactly when the hour is 12 or later, and it shows `12` exactly for hours 0 and 12. Hour and minute can be read back from it |
| Timestamp.EpochSeconds | app/src/main/java/com/example/fedor/newsapp/NewsAdapter.java:93-98 | the instant, in seconds since 1970-01-01T00:00Z, of the `Date` the parse yields. `WallClockOfOwnZone` and `ToWallClock` state what it means: read at the timestamp's own offset it gives back the written date, hour and minute |
| Timestamp.Instant | app/src/main/java/com/example/fedor/newsapp/NewsAdapter.java:93-98 | the rewrite followed by the parse, `None` where the parse throws. `ZoneSpellingsAgree` and `SameInstantSameDisplay` state its properties |
| Timestamp.FormatDate | app/src/main/java/com/example/fedor/newsapp/NewsAdapter.java:124-127 | `LLL dd, yyyy` of an instant in the host zone. `FormatDateShape` states its layout and that month, day and year of era read back from it |
| Timestamp.FormatTime | app/src/main/java/com/example/fedor/newsapp/NewsAdapter.java:132-135 | `hh:mm a` of an instant in the host zone. `FormatTimeShape` and `ClockHourDial` state its layout, the AM/PM rule and that hour and minute read back from it |
| Timestamp.Normalize | app/src/main/java/com/example/fedor/newsapp/NewsAdapter.java:96-111 | the date and time texts `getView` writes, `None` where it catches a `ParseException`. `NormalizeAccepted`, `NormalizeAfterRewrite`, `DisplayInOwnZone` and `UtcExample` state its properties |
| Adapter.BoundRow | app/src/main/java/com/example/fedor/newsapp/NewsAdapter.java:72-115 | the texts a row shows after binding, the function `GetView` is proved against. `StoryTextsAlwaysShown`, `DateAndTimeKeptOnFailure`, `DateAndTimeOfInstant`, `BindingIdempotent` and `RecycledRow` state its properties |
| Timestamp.ReplaceTrailingZOfAccepted | app/src/main/java/com/example/fedor/newsapp/NewsAdapter.java:98 | an accepted timestamp is left alone by the rewrite |
| Timestamp.NormalizeAccepted | app/src/main/java/com/example/fedor/newsapp/NewsAdapter.java:96-111 | an accepted timestamp displays the date and time formats of its instant |
| Timestamp.DisplayInOwnZone | app/src/main/java/com/example/fedor/newsapp/NewsAdapter.java:93-111 | shown in its own zone, an accepted timestamp displays its own day, year and minute digits as written, its month's name, and its hour on the twelve-hour dial |
| Timestamp.SameInstantSameDisplay | app/src/main/java/com/example/fedor/newsapp/NewsAdapter.java:98-111 | two accepted timestamps that denote the same instant display the same in every host zone |
| Timestamp.UtcExample | app/src/main/java/com/example/fedor/newsapp/NewsAdapter.java:96-111 | `2019-11-05T14:30:00Z` in a UTC host displays `Nov 05, 2019` and `02:30 PM` |
| Timestamp.RejectedExamples | app/src/main/java/com/example/fedor/newsapp/NewsAdapter.java:96-115 | the empty text, `garbage` and `not-a-date` fail to parse |
| Timestamp.FractionalSecondsRejected | app/src/main/java/com/example/fedor/newsapp/NewsAdapter.java:93-98 | a timestamp with fractional seconds fails to parse |
| NewsRecord.StoredAsGiven | app/src/main/java/com/example/fedor/newsapp/News.java:47-88 | each getter returns exactly the text given to the constructor for that field, including an un-normalised timestamp |
| NewsRecord.SameStoryIffSameTexts | app/src/main/java/com/example/fedor/newsapp/News.java:21-53 | the record carries nothing but its five texts: two `News` values are the same exactly when all five agree. The Java class does not override `equals`, so this describes the record's content, not Java object equality |
| Adapter.Row.Inflate | app/src/main/java/com/example/fedor/newsapp/NewsAdapter.java:66-69 | a freshly inflated row shows the layout's initial texts |
| Adapter.NewsAdapter.constructor | app/src/main/java/com/example/fedor/newsapp/NewsAdapter.java:54-56 | the adapter keeps the list of stories it is given |
| Adapter.NewsAdapter.GetView | app/src/main/java/com/example/fedor/newsapp/NewsAdapter.java:63-119 | a supplied row is the one updated and returned; otherwise a fresh row is inflated. Either way the row then shows `BoundRow` of the story at that position and the row's earlier texts |
| Adapter.StoryTextsAlwaysShown | app/src/main/java/com/example/fedor/newsapp/NewsAdapter.java:75-87 | after binding, the row's title, category and author are the story's title, section and author, whatever the timestamp |
| Adapter.DateAndTimeKeptOnFailure | app/src/main/java/com/example/fedor/newsapp/NewsAdapter.java:96-115 | when the timestamp does not parse, the row's date and time keep exactly their earlier values |
| Adapter.DateAndTimeOfInstant | app/src/main/java/com/example/fedor/newsapp/NewsAdapter.java:96-111 | when the timestamp parses, the row's date and time are the two formats of its instant, whatever the row showed before |
| Adapter.BindingIdempotent | app/src/main/java/com/example/fedor/newsapp/NewsAdapter.java:75-115 | binding the same story to a row twice leaves what binding it once leaves |
| Adapter.RecycledRow | app/src/main/java/com/example/fedor/newsapp/NewsAdapter.java:66-118 | when a recycled row is bound to a new story whose timestamp parses, nothing of the earlier story remains. When the timestamp does not parse, the row shows the new title next to the earlier story's date and time |
| Adapter.ZoneSpellingsGiveSameRow | app/src/main/java/com/example/fedor/newsapp/NewsAdapter.java:90-98 | stories that differ only in writing UTC as `Z` or as `+0000` produce the same row |
| Adapter.UtcStoryRow | app/src/main/java/com/example/fedor/newsapp/NewsAdapter.java:72-111 | a story published at `2019-11-05T14:30:00Z`, bound to a blank row in a UTC host, shows its texts with `Nov 05, 2019` and `02:30 PM` |
| Adapter.MalformedStoryRow | app/src/main/java/com/example/fedor/newsapp/NewsAdapter.java:96-115 | a story whose timestamp is `garbage` leaves a blank row's date and time blank |
| Adapter.RecycledRowResidueExample | app/src/main/java/com/example/fedor/newsapp/NewsAdapter.java:96-115 | a row that showed a 14:30 UTC story and is then bound to a story with a malformed timestamp shows `Nov 05, 2019` and `02:30 PM` under the new title. A fresh row bound to the same story shows blanks |

## Left out

- Android plumbing is not modelled: `ArrayAdapter`, `Context`, `LayoutInflater`, `findViewById`, `setText` and the parent `ViewGroup`. Views are the fields of `Row`, and `getItem` is indexing with an in-range position.
- `LOG_TAG` and `e.printStackTrace()` produce output only and are left out.
- `TIME_SEPARATOR` is never used by the code and is left out.
- Timestamp.Parse: accepts a strict subset of what the library's lenient `SimpleDateFormat.parse` accepts. It rejects the following, which the library may accept:
  - trailing text after a complete timestamp, which the library ignores;
  - fields of other widths;
  - out-of-range fields, which the library rolls over (month 13, hour 24);
  - zone forms other than `±hhmm`, such as `GMT+01:00`;
  - years outside 1583-9999.
- Timestamp.ToWallClock: uses the proleptic Gregorian calendar for every date. The library switches to the Julian calendar before 15 October 1582. Accepted years start at 1583, so only a host offset far beyond any real zone (more than 77 days) could reach such dates.
- The JVM's default locale and time zone are left out. Month names are English, and the host zone is a fixed offset, so daylight-saving changes are not modelled.
- Instants are counted in whole seconds, not the library's milliseconds. The pattern has no fractional seconds, so the displayed texts are unaffected.
- Java strings can be `null` and the model's cannot. A `null` timestamp would make the rewrite at line 98 throw an exception that `getView` does not catch.
- The story's URL is stored in the record, but nothing in the adapter reads it.
- The texts of a freshly inflated row come from a layout resource that is not part of this model. They are the adapter's `inflated` parameter.
- Changes to the adapter's list after construction are not modelled, because nothing in the modelled code makes them. `ArrayAdapter` allows them through `add` and `clear`.
