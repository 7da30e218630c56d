# ctp-scraper in Dafny

A model of the scrape-and-cache core of ctp-scraper, a small service that
reads bus timetables from the Cluj-Napoca public transport site
(ctpcj.ro) and caches them. Two classes make up the core:

- `Line` (Line.js) finds a line's page and reads its timetable.
  - `fetchUrl` picks one of five listing sections from the shape of the
    line identifier: metropolitan, night, express, supermarket or urban.
  - It then looks for the first listing anchor whose text contains a space
    followed by the identifier.
  - `fetchSchedule` opens the page it found and picks the timetable of the
    current day.
  - It turns that table's header cells and body rows into one departure
    list per station.
- `Store` (Store.js) holds the cached catalogue and schedules.
  - `refresh` replaces the catalogue.
  - It then writes the fetched schedules in order until the first error.

The browser is not modelled. A `Site` stands in for it: a function from a
URL to the parts of the loaded page the scripts read (the portfolio anchors
and the `table.tztable` elements), or to the exception loading threw. The
day of the week the extraction runs on is a parameter. So is the outcome of
the catalogue fetch.

Results have two layers. `Result` (`Ok` / `Err`) is the `{result, error}`
record the code returns. `Outcome` (`Returned` / `Threw`) tells a resolved
promise from a rejected one.

Modules:

- `Types`: the shapes in types.js.
- `Text`: the JavaScript string built-ins the code uses: `trim`,
  `includes`, `split`, and `Number` on digit strings.
- `Schedule`: the page script of `fetchSchedule`.
- `Line`: `fetchUrl` and `fetchSchedule`.
- `Store`: `data` and `refresh`.

The model states three behaviours of the code that a reader might not
expect:

- **Lookup.** It is a substring test on `" " + id`, not a comparison of
  whole tokens. Identifier "3" finds the anchor "Linia 35" when that anchor
  comes first (`Line.PrefixOfLongerNumberMatches`).
- **Refresh.** It is not all-or-nothing.
  - The catalogue is replaced before any schedule is fetched.
  - Schedules are then written one by one until the first error record. The
    writes before it stay (`Store.PartialRefresh`).
  - If a schedule fetch throws, `Promise.all` rejects. The new catalogue
    then stands next to the old schedules.
- **Missing day table.** When the current day's table does not exist, the
  page script throws a TypeError. It does not return an empty schedule.

In one respect the model changes what a departure is. The code reads
every cell through one shared `Date`, and the model keeps that reading as
`Schedule.TransposeAsWritten`. The readings that the rest of the model uses
take each cell on its own (see "## Findings"). The other simplifications
are listed under "## Left out".

## Model

| member | source | states |
|---|---|---|
| Text.Trim | Line.js:121 | the result is no longer than the input and has no white space at either end |
| Text.TrimIsSlice | Line.js:121 | the result is a slice of the input and only white space was cut off on either side |
| Text.TrimIdempotent | Line.js:121 | trimming an already trimmed text changes nothing |
| Text.IncludesIffOccurs | Line.js:60 | `includes` holds exactly when the pattern occurs at some position of the text |
| Text.JoinSplit | Line.js:132 | joining the pieces of `split` with the separator gives the text back |
| Text.SplitJoin | Line.js:132 | splitting the join of separator-free pieces gives the pieces back |
| Text.ToNumberOfDecimal | Line.js:132 | `Number` reads a printed decimal numeral back as the number it prints |
| Schedule.ParseFormatTime | Line.js:131-132 | a cell that starts with a printed "HH:MM" reads as that hour and minute, whatever follows the first five characters |
| Schedule.EmptyCellUnreadable | Line.js:131-132 | an empty cell has no time, because its minutes piece is missing |
| Schedule.TableIndex | Line.js:103-113 | the selected table is the one whose place on the page holds the day's service category (workday, Saturday, Sunday) |
| Schedule.DaySelection | Line.js:104-113 | Sunday reads table 2, Saturday table 1, and Monday to Friday table 0 |
| Schedule.AppendRow | Line.js:127-136 | one row appends each cell's time to the station at the same index; a row wider than the header throws |
| Schedule.TransposedThrows | Line.js:126-134 | one row with more cells than there are header cells makes the whole reading throw the TypeError |
| Schedule.Transpose | Line.js:115-137 | the loop computes the column-by-column reading of the table: one station per header cell in order with trimmed text, each with its column's times in row order, or the TypeError when a row is wider than the header |
| Schedule.RectangularSchedule | Line.js:118-136 | with R rows of exactly one cell per station, every station gets exactly R departures, the r-th being the time in row r of its column |
| Schedule.AsWrittenAgreesWithinDay | Line.js:125-135 | when every cell holds a time within one day, the shared `Date` gives the same schedule as reading each cell on its own |
| Schedule.AsWrittenPoisoned | Line.js:125-135 | as written, an unreadable first cell makes every departure of the table NaN |
| Schedule.UnreadableCellLosesLaterTime | Line.js:131-135 | an unreadable cell followed by a readable one: as written the second departure is lost, read on its own it is kept |
| Schedule.EmptyCellLosesLaterTime | Line.js:125-135 | a row made of an empty cell and a printed time loses that time as written and keeps it when each cell is read on its own |
| Schedule.MinutesOverflowShiftsLaterTime | Line.js:125-135 | a row whose two cells read as 23:60 and 01:00, under two stations: as written the second departure is 1500 minutes, on the next day; read on its own it is 60 |
| Line.Classify | Line.js:21-38 | every identifier, the empty one included, gets exactly one section: the first in the order metropolitan, night, express, supermarket, urban whose rule fires |
| Line.ClassifyIsFirstMatch | Line.js:22-38 | the switch equals the first-match reading of the rule table |
| Line.ListingUrlNamesSection | Line.js:21-37 | the listing URL is the base URL plus the section's suffix, and the section can be read back from it |
| Line.SameListingSameSection | Line.js:21-37 | two identifiers share a listing page exactly when they share a section |
| Line.ClassifyExamples | Line.js:22-37 | "M3E" and "M24N" are metropolitan, "99N" is night, "99E" is express, "99B" is supermarket, and "7", "9" and "" are urban |
| Line.FindLine | Line.js:56-68 | success exactly when some anchor's text contains a space then the identifier; on success the href of the first such anchor; otherwise the 404 record "Line <id> not found" |
| Line.ScanAnchors | Line.js:59-67 | the loop returning from inside computes the same first-match lookup |
| Line.PrefixOfLongerNumberMatches | Line.js:60 | identifier "3" finds "Linia 35" before "Linia 3" when that anchor comes first |
| Line.FetchUrl | Line.js:53-71 | a failed navigation or a missing portfolio throws; otherwise the lookup on the listing's anchors is returned: found exactly when an anchor mentions the identifier, with the href of the first such anchor, and otherwise the 404 record |
| Line.ReadSchedule | Line.js:97-139 | with the day's table present, the column-by-column reading of that table; without it, an exception |
| Line.FetchSchedule | Line.js:78-142 | the lookup's error record is returned unchanged; the only error record ever returned is the 404; once the lookup succeeds, a failed page load or a failed reading throws and a successful reading of the found page is returned as the schedule |
| Line.LookupErrorLoadsNothingElse | Line.js:79-82 | when the lookup fails, no other page is loaded: sites that agree on the listing page give the same answer |
| Line.ScheduleOfDay | Line.js:96-139 | for a found line whose page carries the day's table, the result is that table read column by column, or an exception when that reading throws |
| Store.Initial | Store.js:11-14 | the store starts with no lines and no schedules |
| Store.ToMap | Store.js:36 | the catalogue object has exactly the listed keys, each mapped to its record |
| Store.AwaitAll | Store.js:38-43 | `Promise.all` resolves, with the results in key order, exactly when no fetch threw |
| Store.Apply | Store.js:44-49 | no schedule key is removed, and every new or changed schedule is an `Ok` response for that key |
| Store.ApplyWrites | Store.js:44-49 | with distinct keys, every response before the first error record leaves its schedule under its key |
| Store.ApplyKeeps | Store.js:44-49 | a key that no response before the first error record names keeps its old schedule, or stays absent |
| Store.Refresh | Store.js:28-56 | a failed catalogue fetch leaves the state unchanged; otherwise the lines are the new catalogue; no schedule key is removed; every new or changed schedule was fetched for a key of the new catalogue |
| Store.RefreshWritesUntilFirstError | Store.js:44-49 | with no fetch thrown, every line before the first error record has its fetched schedule, and the catalogue stays replaced |
| Store.RefreshKeepsFromFirstError | Store.js:44-49 | every key that no line before the first error names, the failing line and the later ones included, keeps its old schedule or stays absent |
| Store.RefreshThrownKeepsSchedules | Store.js:38-43 | when any schedule fetch throws, the catalogue is replaced and no schedule is written |
| Store.PartialRefresh | Store.js:36-49 | from the empty store, a first line fetched and a second one failing leave both lines catalogued and only the first schedule written |

## Left out

- The browser singleton, page creation and `page.close` (Line.js:9-14, 40-41, 70, 83-84, 141) are foreign I/O and are not modelled. Pages stay open when a step throws.
- Request interception (Line.js:43-51, 86-94) is a browser callback. Its list says "sylesheet", so stylesheets are not blocked. This only affects loading.
- `waitForSelector` is modelled as an immediate exception when the element is absent. Its waiting time and the exact texts of the exception messages are not modelled. The messages are only logged.
- The day's table is assumed to have a `tbody`. In the source, a table without one makes the script throw.
- `Date`: departures are minutes after midnight of the day the extraction runs. Epoch milliseconds, the time zone, daylight-saving changes and the seconds and milliseconds that `setHours` keeps are left out.
- Text.ToNumber: weaker than `Number`. It reads only trimmed runs of ASCII digits, with the empty string as 0. Signs, decimals, hexadecimal, exponents and "Infinity" give `None` here.
- Schedule.ParseTime: because of `Text.ToNumber`, a cell like "+5:30" or "5.0:30" reads as no time here, while `Number` would give a value.
- Line.ReadSchedule, Line.FetchSchedule, Line.ScheduleOfDay, Schedule.Transpose and Schedule.AppendRow: these read every cell on its own (`Schedule.Transposed`, `Schedule.CellTime`), not through the shared `Date` of Line.js:125-135.
  - They can differ once an unreadable cell is followed by a readable one (`Schedule.UnreadableCellLosesLaterTime`).
  - They can also differ once a cell's time (hours × 60 + minutes) reaches 1440 and another cell follows (`Schedule.MinutesOverflowShiftsLaterTime`: cells that read as 23:60 and 01:00).
  - `Schedule.AsWrittenAgreesWithinDay` proves they agree when every cell has hours below 24 and minutes below 60.
  - The code's own reading is `Schedule.TransposeAsWritten` (see "## Findings").
- Text.Trim: the Unicode space separators outside Latin-1 (U+1680, U+2000 to U+200A, U+202F, U+205F, U+3000) are not treated as white space.
- `Store.init` (Store.js:19-22) is left out: the cron job and the first refresh are scheduling. Logging is left out too.
- Concurrency is left out. `refresh` is one atomic transition here. In the source, overlapping refreshes interleave with each other and with readers. The cron pattern "* 3 * * *" fires every minute of that hour.
- `Line.fetchAll` is called at Store.js:32 but is not defined in Line.js. Its outcome is an input to `Store.Refresh`. With Line.js as it stands, that call throws, and the state is left unchanged (the `Threw` case).
- After `Promise.all` rejects, the other fetches still run to completion. Their results are dropped, and the model does not represent them.
- A line identifier such as `__proto__` would not become an ordinary key of a JavaScript object. The model treats every identifier as an ordinary key.
- index.js (HTTP routes, upper-casing identifiers, mapping errors to statuses) is wiring and is not modelled. types.js has no behaviour beyond the shapes in `Types`.

## Findings

| source | as written | input that shows it | evidently intended | confidence | as-written member | corrected member |
|---|---|---|---|---|---|---|
| Line.js:125-135 | one `Date` is shared by every cell. `setHours` with a NaN argument makes it invalid for good, so every later cell of the table reads NaN. A time of 1440 minutes or more (hours × 60 + minutes) also carries the date into the next day for all later cells, as the row "23:60", "01:00" shows | two header cells and one row `["", "05:30"]`: the empty cell has no minutes piece, so the second departure is NaN instead of 05:30 | each cell's departure depends only on that cell | not executed | Schedule.EmptyCellLosesLaterTime | Schedule.RectangularSchedule |

Every reading that the rest of the model uses (`Schedule.Transposed`, the
method `Schedule.Transpose`, `Line.FetchSchedule`) reads each cell on its
own. `Schedule.TransposeAsWritten` keeps the code's shared date.
`Schedule.AsWrittenAgreesWithinDay` shows that the two readings agree
whenever every cell holds a time within one day.
