/** The page-side work of `Line.fetchSchedule` (Line.js:99-139): picking the
    timetable of the current day and turning its header cells and body rows
    into one departure list per station.

    Two readings of the departure cells live here. `Transposed` (and the
    loop `Transpose` that computes it) reads every cell on its own, which is
    what the code evidently means and what the rest of the model uses.
    `TransposeAsWritten` follows the code literally: one `Date` object is
    shared by every cell and `setHours` is applied to it cell after cell, so
    the date part carries over and an invalid time poisons every later
    cell. */
module Schedule {
  import opened Types
  import opened Text

  /** One `table.tztable`: the text of each of its `th` cells, and for each
      `tbody` row the text of each of its `td` cells. */
  datatype Table = Table(headers: seq<string>, rows: seq<seq<string>>)

  datatype HourMinute = HourMinute(hours: nat, minutes: nat)

  const MinutesPerDay: int := 1440

  /** The message of the TypeError raised by `result[index].departures`
      when a row has more cells than the table has header cells. */
  const ReadOfUndefined: string := "Cannot read properties of undefined (reading 'departures')"

  function Min(a: int, b: int): int {
    if a <= b then a else b
  }

  /** Reads a cell the way Line.js:131-132 does: trim the text, keep the
      first five characters, split them on ':' and convert the first two
      pieces with `Number`. A missing minutes piece or a piece `Number`
      rejects gives `None`. */
  function ParseTime(cell: string): Option<HourMinute> {
    var text := Trim(cell);
    var parts := Split(text[..Min(5, |text|)], ':');
    if |parts| < 2 then None
    else
      match (ToNumber(parts[0]), ToNumber(parts[1]))
      case (Some(h), Some(m)) => Some(HourMinute(h, m))
      case _ => None
  }

  function MinutesOf(t: HourMinute): int {
    t.hours * 60 + t.minutes
  }

  /** The departure a single cell stands for, read on its own. */
  function CellTime(cell: string): Option<int> {
    TimeValue(ParseTime(cell))
  }

  function TimeValue(time: Option<HourMinute>): Option<int> {
    match time
    case Some(t) => Some(MinutesOf(t))
    case None => None
  }

  function TwoDigits(n: nat): string
    requires n < 100
  {
    [Digit(n / 10), Digit(n % 10)]
  }

  /** The zero-padded "HH:MM" form the timetable prints. */
  function FormatTime(t: HourMinute): string
    requires t.hours < 100 && t.minutes < 100
  {
    TwoDigits(t.hours) + ":" + TwoDigits(t.minutes)
  }

  lemma DecimalValueOfPair(a: char, b: char)
    requires IsDigit(a) && IsDigit(b)
    ensures AllDigits([a, b]) && DecimalValue([a, b]) == DigitValue(a) * 10 + DigitValue(b)
  {
    var s := [a, b];
    assert AllDigits(s);
    assert s[..1] == [a] && [a][..0] == [];
    assert DecimalValue([a]) == DigitValue(a);
    assert DecimalValue(s) == DecimalValue([a]) * 10 + DigitValue(b);
  }

  /** `Number` reads a zero-padded two-digit numeral back. */
  lemma TwoDigitsValue(n: nat)
    requires n < 100
    ensures ToNumber(TwoDigits(n)) == Some(n)
  {
    TwoDigitsDecimal(n);
    ToNumberOfDigits(TwoDigits(n));
  }

  lemma TwoDigitsDecimal(n: nat)
    requires n < 100
    ensures AllDigits(TwoDigits(n)) && DecimalValue(TwoDigits(n)) == n
  {
    DecimalValueOfPair(Digit(n / 10), Digit(n % 10));
  }

  /** Trailing text after a cell's leading non-blank part does not change
      where trimming ends that part. */
  lemma TrimKeepsPrefix(x: string, y: string)
    requires |x| > 0 && !IsWhitespace(x[0]) && !IsWhitespace(x[|x| - 1])
    ensures |Trim(x + y)| >= |x| && Trim(x + y)[..|x|] == x
  {
    var s := x + y;
    assert TrimStart(s) == s;
    var r := TrimEnd(s);
    assert s[|x| - 1] == x[|x| - 1];
    assert |r| >= |x|;
    assert r[..|x|] == s[..|x|] == x;
  }

  /** The first five characters of a trimmed cell that starts with a
      printed "HH:MM" are that printed time. */
  lemma FirstFiveOfPrinted(t: HourMinute, rest: string)
    requires t.hours < 100 && t.minutes < 100
    ensures var text := Trim(FormatTime(t) + rest); text[..Min(5, |text|)] == FormatTime(t)
  {
    var f := FormatTime(t);
    TrimKeepsPrefix(f, rest);
  }

  /** A printed "HH:MM" splits on ':' into its two digit pairs. */
  lemma SplitPrinted(t: HourMinute)
    requires t.hours < 100 && t.minutes < 100
    ensures Split(FormatTime(t), ':') == [TwoDigits(t.hours), TwoDigits(t.minutes)]
  {
    var hh, mm := TwoDigits(t.hours), TwoDigits(t.minutes);
    assert Join([hh, mm], ':') == FormatTime(t);
    SplitJoin([hh, mm], ':');
  }

  /** Reading a printed "HH:MM" gives the time back, whatever follows the
      first five characters of the cell. */
  lemma {:induction false} ParseFormatTime(t: HourMinute, rest: string)
    requires t.hours < 100 && t.minutes < 100
    ensures ParseTime(FormatTime(t) + rest) == Some(t)
  {
    FirstFiveOfPrinted(t, rest);
    SplitPrinted(t);
    TwoDigitsValue(t.hours);
    TwoDigitsValue(t.minutes);
  }

  /** Which timetable a day of the week reads. */
  type Weekday = d: int | 0 <= d < 7

  datatype ServiceDay = Workday | Saturday | Sunday

  /** `getDay()` numbering: 0 is Sunday and 6 is Saturday. */
  function ServiceDayOf(day: Weekday): ServiceDay {
    if day == 0 then Sunday else if day == 6 then Saturday else Workday
  }

  /** The order in which the timetables appear on a line's page. */
  const PageOrder: seq<ServiceDay> := [Workday, Saturday, Sunday]

  /** The day switch of Line.js:103-113: the selected table is the one
      whose position on the page belongs to the day's service category. */
  function TableIndex(day: Weekday): (i: nat)
    ensures i < |PageOrder| && PageOrder[i] == ServiceDayOf(day)
  {
    match day
    case 0 => 2
    case 6 => 1
    case _ => 0
  }

  lemma DaySelection()
    ensures TableIndex(0) == 2
    ensures TableIndex(6) == 1
    ensures forall d: Weekday :: 1 <= d <= 5 ==> TableIndex(d) == 0
  {
  }

  /** The time each cell of a row parses to. */
  function ParsedRow(row: seq<string>): (times: seq<Option<HourMinute>>)
    ensures |times| == |row|
    decreases |row|
  {
    if |row| == 0 then [] else [ParseTime(row[0])] + ParsedRow(row[1..])
  }

  lemma {:induction false} ParsedCell(row: seq<string>, c: nat)
    requires c < |row|
    ensures ParsedRow(row)[c] == ParseTime(row[c])
    decreases c
  {
    if c > 0 {
      var tail := row[1..];
      ParsedCell(tail, c - 1);
      assert tail[c - 1] == row[c];
    }
  }

  /** The parsed times of a table's body, row by row. Reading a cell does
      not depend on any other cell, so the two ways of collecting departures
      below both start from this grid. */
  type Grid = seq<seq<Option<HourMinute>>>

  function Parsed(t: Table): (g: Grid)
    ensures |g| == |t.rows|
    ensures forall r :: 0 <= r < |t.rows| ==> g[r] == ParsedRow(t.rows[r])
  {
    seq(|t.rows|, r requires 0 <= r < |t.rows| => ParsedRow(t.rows[r]))
  }

  /** No row has more cells than there are stations. */
  predicate Fits(width: nat, g: Grid) {
    forall r :: 0 <= r < |g| ==> |g[r]| <= width
  }

  /** The departures column `j` collects, one per row that reaches column `j`,
      in row order. */
  function Column(g: Grid, j: nat): seq<Option<int>>
    decreases |g|
  {
    if |g| == 0 then []
    else
      var last := g[|g| - 1];
      Column(g[..|g| - 1], j) + (if j < |last| then [TimeValue(last[j])] else [])
  }

  /** Departures collected column by column: one station per header cell
      with its trimmed text and its column's times; a row wider than the
      header makes the page script throw. */
  function Collect(headers: seq<string>, g: Grid): Outcome<Timetable> {
    if Fits(|headers|, g) then
      Returned(seq(|headers|, j requires 0 <= j < |headers| =>
        StationDeparture(Trim(headers[j]), Column(g, j))))
    else
      Threw(ReadOfUndefined)
  }

  /** The schedule a table yields, every cell read on its own. */
  function Transposed(t: Table): Outcome<Timetable> {
    Collect(t.headers, Parsed(t))
  }

  /** The columns after the first `n` rows, read cell by cell. */
  function Columns(width: nat, g: Grid, n: nat): (r: seq<seq<Option<int>>>)
    requires n <= |g|
    ensures |r| == width
  {
    seq(width, j requires 0 <= j < width => Column(g[..n], j))
  }

  /** The columns with the first `k` times of a row appended, each to the
      column of its own index. */
  function Extend(columns: seq<seq<Option<int>>>, times: seq<Option<HourMinute>>, k: nat): (r: seq<seq<Option<int>>>)
    requires k <= |times|
    ensures |r| == |columns|
  {
    seq(|columns|, j requires 0 <= j < |columns| =>
      columns[j] + (if j < k then [TimeValue(times[j])] else []))
  }

  /** The departures of each station, in station order. */
  function Departures(stations: Timetable): (columns: seq<seq<Option<int>>>)
    ensures |columns| == |stations|
  {
    seq(|stations|, j requires 0 <= j < |stations| => stations[j].departures)
  }

  /** The stations after the first `n` rows: one per header cell, with its
      trimmed text and the departures those rows put in its column. */
  function StationsAfter(t: Table, n: nat): (s: Timetable)
    requires n <= |t.rows|
    ensures |s| == |t.headers|
  {
    seq(|t.headers|, j requires 0 <= j < |t.headers| =>
      StationDeparture(Trim(t.headers[j]), Column(Parsed(t)[..n], j)))
  }

  /** Each station extended by the time of one more row's cell in its
      column, if the row has one. */
  function WithRow(stations: Timetable, cells: seq<string>): (s: Timetable)
    ensures |s| == |stations|
  {
    var columns := Extend(Departures(stations), ParsedRow(cells), |cells|);
    seq(|stations|, j requires 0 <= j < |stations| =>
      stations[j].(departures := columns[j]))
  }

  /** The departures of the stations after `n` rows are the columns after
      `n` rows. */
  lemma StationsAfterColumns(t: Table, n: nat)
    requires n <= |t.rows|
    ensures Departures(StationsAfter(t, n)) == Columns(|t.headers|, Parsed(t), n)
  {
  }

  lemma AddRow(t: Table, n: nat)
    requires n < |t.rows| && |t.rows[n]| <= |t.headers|
    ensures WithRow(StationsAfter(t, n), t.rows[n]) == StationsAfter(t, n + 1)
  {
    StationsAfterColumns(t, n);
    ExtendByRow(|t.headers|, Parsed(t), n);
  }

  /** The inner loop of Line.js:126-137 over one row's cells: append each
      cell's time to the station at the same index; a cell with no station
      makes the script throw. */
  method AppendRow(stations: Timetable, cells: seq<string>) returns (r: Outcome<Timetable>)
    ensures |cells| <= |stations| ==> r == Returned(WithRow(stations, cells))
    ensures |cells| > |stations| ==> r == Threw(ReadOfUndefined)
  {
    var result := stations;
    var index := 0;
    while index < |cells|
      invariant 0 <= index <= |cells|
      invariant |result| == |stations| && index <= |result|
      invariant forall j :: 0 <= j < |result| ==>
        result[j] == stations[j].(departures := stations[j].departures
          + (if j < index then [CellTime(cells[j])] else []))
    {
      if index >= |result| {
        return Threw(ReadOfUndefined);
      }
      result := result[index := result[index].(departures := result[index].departures + [CellTime(cells[index])])];
      index := index + 1;
    }
    r := Returned(result);
    forall j | 0 <= j < |cells|
      ensures ParsedRow(cells)[j] == ParseTime(cells[j])
    {
      ParsedCell(cells, j);
    }
    assert result == WithRow(stations, cells);
  }

  lemma TransposedThrows(t: Table, i: nat)
    requires i < |t.rows| && |t.rows[i]| > |t.headers|
    ensures Transposed(t) == Threw(ReadOfUndefined)
  {
    assert |Parsed(t)[i]| > |t.headers|;
  }

  lemma TransposedReturns(t: Table)
    requires forall k :: 0 <= k < |t.rows| ==> |t.rows[k]| <= |t.headers|
    ensures Transposed(t) == Returned(StationsAfter(t, |t.rows|))
  {
    var g := Parsed(t);
    assert g[..|t.rows|] == g;
    forall r | 0 <= r < |g|
      ensures |g[r]| <= |t.headers|
    {
      assert |g[r]| == |t.rows[r]|;
    }
    var stations := StationsAfter(t, |t.rows|);
    forall j | 0 <= j < |t.headers|
      ensures stations[j] == StationDeparture(Trim(t.headers[j]), Column(g, j))
    {
    }
    assert Fits(|t.headers|, g);
    assert Collect(t.headers, g).result == stations;
  }

  /** Before any row, every station has its trimmed name and no departure. */
  lemma NoRowsYet(t: Table)
    ensures StationsAfter(t, 0) == seq(|t.headers|, j requires 0 <= j < |t.headers| =>
      StationDeparture(Trim(t.headers[j]), []))
  {
    assert Parsed(t)[..0] == [];
  }

  /** One pass of the outer loop: the stations after row `i`, or the
      TypeError of the whole reading when that row is too wide. */
  method NextRow(t: Table, i: nat, stations: Timetable) returns (step: Outcome<Timetable>)
    requires i < |t.rows| && stations == StationsAfter(t, i)
    ensures |t.rows[i]| <= |t.headers| ==> step == Returned(StationsAfter(t, i + 1))
    ensures |t.rows[i]| > |t.headers| ==> step == Transposed(t) == Threw(ReadOfUndefined)
  {
    step := AppendRow(stations, t.rows[i]);
    if step.Threw? {
      TransposedThrows(t, i);
    } else {
      AddRow(t, i);
    }
  }

  /** The loop of Line.js:120-137: seed one station per header cell, then
      add the rows in order. */
  method Transpose(t: Table) returns (r: Outcome<Timetable>)
    ensures r == Transposed(t)
  {
    var result := seq(|t.headers|, j requires 0 <= j < |t.headers| =>
      StationDeparture(Trim(t.headers[j]), []));
    NoRowsYet(t);
    var i := 0;
    while i < |t.rows|
      invariant 0 <= i <= |t.rows|
      invariant forall k :: 0 <= k < i ==> |t.rows[k]| <= |t.headers|
      invariant result == StationsAfter(t, i)
    {
      var step := NextRow(t, i, result);
      if step.Threw? {
        return step;
      }
      result := step.result;
      i := i + 1;
    }
    TransposedReturns(t);
    r := Returned(result);
  }

  lemma {:induction false} ColumnOfFullRows(g: Grid, j: nat)
    requires forall r :: 0 <= r < |g| ==> j < |g[r]|
    ensures |Column(g, j)| == |g|
    ensures forall r :: 0 <= r < |g| ==> Column(g, j)[r] == TimeValue(g[r][j])
    decreases |g|
  {
    if |g| > 0 {
      ColumnOfFullRows(g[..|g| - 1], j);
    }
  }

  /** With R rows of exactly one cell per station, every station gets
      exactly R departures, the r-th being the time in row r of its column. */
  lemma RectangularSchedule(t: Table)
    requires forall r :: 0 <= r < |t.rows| ==> |t.rows[r]| == |t.headers|
    ensures Transposed(t).Returned? && |Transposed(t).result| == |t.headers|
    ensures forall j :: 0 <= j < |t.headers| ==>
      && Transposed(t).result[j].station == Trim(t.headers[j])
      && |Transposed(t).result[j].departures| == |t.rows|
      && forall r :: 0 <= r < |t.rows| ==> Transposed(t).result[j].departures[r] == CellTime(t.rows[r][j])
  {
    var g := Parsed(t);
    forall j | 0 <= j < |t.headers|
      ensures |Column(g, j)| == |t.rows|
      ensures forall r :: 0 <= r < |t.rows| ==> Column(g, j)[r] == CellTime(t.rows[r][j])
    {
      ColumnOfFullRows(g, j);
      forall r | 0 <= r < |t.rows|
        ensures g[r][j] == ParseTime(t.rows[r][j])
      {
        ParsedCell(t.rows[r], j);
      }
    }
  }

  // ---------------------------------------------------------------------
  // The code as written: one shared Date for the whole table.

  /** The shared `Date`: a number of minutes after midnight of the day the
      extraction ran, or an invalid date (time value NaN). Only its day
      matters at the start, since `setHours` overwrites hour and minute. */
  datatype Clock = Valid(minutes: int) | Invalid

  /** `time.setHours(hours, minutes)`: keeps the day the clock is on and
      sets the time of day, letting hours or minutes past their range roll
      over into later days; a NaN argument or an invalid date gives an
      invalid date. */
  function SetHours(clock: Clock, time: Option<HourMinute>): Clock {
    match (clock, time)
    case (Valid(now), Some(t)) => Valid((now / MinutesPerDay) * MinutesPerDay + MinutesOf(t))
    case _ => Invalid
  }

  /** `time.getTime()`, in minutes; `None` is NaN. */
  function Reading(clock: Clock): Option<int> {
    if clock.Valid? then Some(clock.minutes) else None
  }

  /** The stations' departure lists so far and the shared `Date`. */
  datatype Progress = Progress(columns: seq<seq<Option<int>>>, clock: Clock)

  /** One cell: set the shared date to the cell's time, then push its
      reading onto the station at `index`, which must exist. */
  function StepCell(p: Outcome<Progress>, index: nat, time: Option<HourMinute>): (q: Outcome<Progress>)
    ensures p.Threw? ==> q == p
    ensures p.Returned? && q.Returned? ==> |q.result.columns| == |p.result.columns|
  {
    match p
    case Threw(_) => p
    case Returned(pr) =>
      var clock := SetHours(pr.clock, time);
      if index < |pr.columns| then
        Returned(Progress(pr.columns[index := pr.columns[index] + [Reading(clock)]], clock))
      else
        Threw(ReadOfUndefined)
  }

  /** The progress after the first `k` cells of a row, given their times. */
  function AfterCells(p: Outcome<Progress>, times: seq<Option<HourMinute>>, k: nat): (q: Outcome<Progress>)
    requires k <= |times|
    ensures p.Threw? ==> q == p
    ensures p.Returned? && q.Returned? ==> |q.result.columns| == |p.result.columns|
    decreases k
  {
    if k == 0 then p else StepCell(AfterCells(p, times, k - 1), k - 1, times[k - 1])
  }

  function Start(width: nat): Progress {
    Progress(seq(width, _ => []), Valid(0))
  }

  /** The progress after the first `n` rows. */
  function AfterRows(width: nat, g: Grid, n: nat): (q: Outcome<Progress>)
    requires n <= |g|
    ensures q.Returned? ==> |q.result.columns| == width
    decreases n
  {
    if n == 0 then Returned(Start(width))
    else AfterCells(AfterRows(width, g, n - 1), g[n - 1], |g[n - 1]|)
  }

  /** Line.js:120-137 as written: departures collected row by row through
      the shared `Date`. */
  function CollectAsWritten(headers: seq<string>, g: Grid): Outcome<Timetable> {
    match AfterRows(|headers|, g, |g|)
    case Threw(m) => Threw(m)
    case Returned(p) =>
      Returned(seq(|headers|, j requires 0 <= j < |headers| =>
        StationDeparture(Trim(headers[j]), p.columns[j])))
  }

  function TransposeAsWritten(t: Table): Outcome<Timetable> {
    CollectAsWritten(t.headers, Parsed(t))
  }

  predicate InDay(time: Option<HourMinute>) {
    time.Some? && time.value.hours < 24 && time.value.minutes < 60
  }

  /** Every cell holds a well-formed time of day. */
  predicate WithinDay(g: Grid) {
    forall r, c :: 0 <= r < |g| && 0 <= c < |g[r]| ==> InDay(g[r][c])
  }

  predicate OnFirstDay(clock: Clock) {
    clock.Valid? && 0 <= clock.minutes < MinutesPerDay
  }

  lemma SetHoursWithinDay(clock: Clock, time: Option<HourMinute>)
    requires OnFirstDay(clock) && InDay(time)
    ensures SetHours(clock, time) == Valid(MinutesOf(time.value))
    ensures OnFirstDay(SetHours(clock, time))
  {
    assert clock.minutes / MinutesPerDay == 0;
  }

  /** One more cell of a row within the day, at an index that has a
      station: its time is appended to that station and the clock stays on
      the first day. */
  lemma CellWithinDay(pr: Progress, times: seq<Option<HourMinute>>, k: nat, clock: Clock)
    requires k < |times| && k < |pr.columns| && InDay(times[k]) && OnFirstDay(clock)
    requires AfterCells(Returned(pr), times, k) == Returned(Progress(Extend(pr.columns, times, k), clock))
    ensures AfterCells(Returned(pr), times, k + 1)
      == Returned(Progress(Extend(pr.columns, times, k + 1), Valid(MinutesOf(times[k].value))))
    ensures OnFirstDay(Valid(MinutesOf(times[k].value)))
  {
    SetHoursWithinDay(clock, times[k]);
    var before := Extend(pr.columns, times, k);
    var after := before[k := before[k] + [TimeValue(times[k])]];
    forall j | 0 <= j < |pr.columns|
      ensures Extend(pr.columns, times, k + 1)[j] == after[j]
    {
      if j == k {
        assert before[j] == pr.columns[j] + [];
      }
    }
    assert Extend(pr.columns, times, k + 1) == after;
  }

  lemma {:induction false} CellsWithinDay(pr: Progress, times: seq<Option<HourMinute>>, k: nat)
    requires OnFirstDay(pr.clock)
    requires forall c :: 0 <= c < |times| ==> InDay(times[c])
    requires k <= |times|
    ensures k <= |pr.columns| ==>
      && AfterCells(Returned(pr), times, k).Returned?
      && AfterCells(Returned(pr), times, k).result.columns == Extend(pr.columns, times, k)
      && OnFirstDay(AfterCells(Returned(pr), times, k).result.clock)
    ensures k > |pr.columns| ==> AfterCells(Returned(pr), times, k) == Threw(ReadOfUndefined)
    decreases k
  {
    if k > 0 {
      CellsWithinDay(pr, times, k - 1);
      if k - 1 < |pr.columns| {
        var p := AfterCells(Returned(pr), times, k - 1);
        CellWithinDay(pr, times, k - 1, p.result.clock);
      }
    } else {
      forall j | 0 <= j < |pr.columns|
        ensures Extend(pr.columns, times, 0)[j] == pr.columns[j]
      {
        assert pr.columns[j] + [] == pr.columns[j];
      }
      assert Extend(pr.columns, times, 0) == pr.columns;
    }
  }

  lemma ExtendByRow(width: nat, g: Grid, n: nat)
    requires n < |g|
    ensures Extend(Columns(width, g, n), g[n], |g[n]|) == Columns(width, g, n + 1)
  {
    assert g[..n + 1][..n] == g[..n];
  }

  /** The first `n` rows fit under the header. */
  predicate FitsUpTo(width: nat, g: Grid, n: nat) {
    forall r :: 0 <= r < n && r < |g| ==> |g[r]| <= width
  }

  lemma {:induction false} RowsWithinDay(width: nat, g: Grid, n: nat)
    requires WithinDay(g)
    requires n <= |g|
    ensures FitsUpTo(width, g, n) ==>
      && AfterRows(width, g, n).Returned?
      && AfterRows(width, g, n).result.columns == Columns(width, g, n)
      && OnFirstDay(AfterRows(width, g, n).result.clock)
    ensures !FitsUpTo(width, g, n) ==> AfterRows(width, g, n) == Threw(ReadOfUndefined)
    decreases n
  {
    if n == 0 {
      assert Start(width).columns == Columns(width, g, 0);
    } else {
      RowsWithinDay(width, g, n - 1);
      var row := g[n - 1];
      var p := AfterRows(width, g, n - 1);
      assert AfterRows(width, g, n) == AfterCells(p, row, |row|);
      if FitsUpTo(width, g, n - 1) {
        CellsWithinDay(p.result, row, |row|);
        if |row| <= width {
          ExtendByRow(width, g, n - 1);
        } else {
          assert |p.result.columns| == width;
          assert !FitsUpTo(width, g, n);
        }
      } else {
        assert p == Threw(ReadOfUndefined);
        assert !FitsUpTo(width, g, n);
      }
    }
  }

  /** When every cell holds a well-formed time of day, the shared `Date`
      is harmless: the code as written and the cell-by-cell reading agree. */
  lemma AsWrittenAgreesWithinDay(headers: seq<string>, g: Grid)
    requires WithinDay(g)
    ensures CollectAsWritten(headers, g) == Collect(headers, g)
  {
    var n := |g|;
    RowsWithinDay(|headers|, g, n);
    assert g[..n] == g;
    assert FitsUpTo(|headers|, g, n) == Fits(|headers|, g);
    if Fits(|headers|, g) {
      var columns := AfterRows(|headers|, g, n).result.columns;
      assert CollectAsWritten(headers, g).result == Collect(headers, g).result by {
        forall j | 0 <= j < |headers|
          ensures columns[j] == Column(g, j)
        {
          assert columns[j] == Columns(|headers|, g, n)[j];
        }
      }
    }
  }

  predicate AllNone(columns: seq<seq<Option<int>>>) {
    forall j, k :: 0 <= j < |columns| && 0 <= k < |columns[j]| ==> columns[j][k] == None
  }

  lemma {:induction false} CellsPoisoned(pr: Progress, times: seq<Option<HourMinute>>, k: nat)
    requires AllNone(pr.columns)
    requires pr.clock.Invalid? || (|times| > 0 && times[0].None?)
    requires k <= |times| <= |pr.columns|
    ensures AfterCells(Returned(pr), times, k).Returned?
    ensures AllNone(AfterCells(Returned(pr), times, k).result.columns)
    ensures pr.clock.Invalid? || k > 0 ==> AfterCells(Returned(pr), times, k).result.clock.Invalid?
    decreases k
  {
    if k > 0 {
      CellsPoisoned(pr, times, k - 1);
      var p := AfterCells(Returned(pr), times, k - 1).result;
      var columns := p.columns[k - 1 := p.columns[k - 1] + [None]];
      assert AfterCells(Returned(pr), times, k) == Returned(Progress(columns, Invalid));
      forall j, i | 0 <= j < |columns| && 0 <= i < |columns[j]|
        ensures columns[j][i] == None
      {
        if j == k - 1 && i == |p.columns[j]| {
        } else {
          assert columns[j][i] == p.columns[j][i];
        }
      }
    }
  }

  lemma {:induction false} RowsPoisoned(width: nat, g: Grid, n: nat)
    requires Fits(width, g)
    requires 0 < n <= |g|
    requires |g[0]| > 0 && g[0][0].None?
    ensures AfterRows(width, g, n).Returned?
    ensures AfterRows(width, g, n).result.clock.Invalid?
    ensures AllNone(AfterRows(width, g, n).result.columns)
    decreases n
  {
    if n == 1 {
      CellsPoisoned(Start(width), g[0], |g[0]|);
    } else {
      RowsPoisoned(width, g, n - 1);
      CellsPoisoned(AfterRows(width, g, n - 1).result, g[n - 1], |g[n - 1]|);
    }
  }

  /** As written, an unreadable first cell makes every departure of the
      whole table NaN, however well-formed the other cells are. */
  lemma AsWrittenPoisoned(headers: seq<string>, g: Grid)
    requires Fits(|headers|, g)
    requires |g| > 0 && |g[0]| > 0 && g[0][0].None?
    ensures CollectAsWritten(headers, g).Returned?
    ensures forall j, k :: 0 <= j < |headers| && 0 <= k < |CollectAsWritten(headers, g).result[j].departures| ==>
      CollectAsWritten(headers, g).result[j].departures[k] == None
  {
    RowsPoisoned(|headers|, g, |g|);
  }

  /** An empty cell has no time: `Number` reads the missing minutes piece
      as NaN. */
  lemma EmptyCellUnreadable()
    ensures ParseTime("") == None
  {
  }

  /** A row holding an empty cell and then a printed time of day parses to
      a missing time followed by that time. */
  lemma EmptyCellThenTime(time: HourMinute)
    requires time.hours < 24 && time.minutes < 60
    ensures ParsedRow(["", FormatTime(time)]) == [None, Some(time)]
  {
    var printed := FormatTime(time);
    ParseFormatTime(time, "");
    assert printed + "" == printed;
    EmptyCellUnreadable();
    var row := ["", printed];
    assert row[1..] == [printed];
    assert [printed][1..] == [];
    assert ParsedRow(row) == [ParseTime("")] + ([ParseTime(printed)] + []);
  }

  /** Two stations and one row: an unreadable cell, then a readable one. As
      written, the second station's departure is lost as well; read cell by
      cell it is kept. */
  lemma UnreadableCellLosesLaterTime(headers: seq<string>, time: HourMinute)
    requires |headers| == 2
    ensures CollectAsWritten(headers, [[None, Some(time)]]).Returned?
    ensures CollectAsWritten(headers, [[None, Some(time)]]).result[1].departures == [None]
    ensures Collect(headers, [[None, Some(time)]]).Returned?
    ensures Collect(headers, [[None, Some(time)]]).result[1].departures == [Some(MinutesOf(time))]
  {
    AsWrittenSecondCellLost(time);
    SecondCellKept(time);
  }

  lemma SecondCellKept(time: HourMinute)
    ensures Column([[None, Some(time)]], 1) == [Some(MinutesOf(time))]
  {
    var g: Grid := [[None, Some(time)]];
    assert g[..0] == [];
  }

  lemma AsWrittenSecondCellLost(time: HourMinute)
    ensures AfterRows(2, [[None, Some(time)]], 1) == Returned(Progress([[None], [None]], Invalid))
  {
    var g: Grid := [[None, Some(time)]];
    var p0 := Progress([[], []], Valid(0));
    assert Start(2) == p0;
    var p1 := Progress([[None], []], Invalid);
    assert p0.columns[0] + [None] == [None];
    assert p0.columns[0 := [None]] == p1.columns;
    assert StepCell(Returned(p0), 0, None) == Returned(p1);
    var p2 := Progress([[None], [None]], Invalid);
    assert p1.columns[1] + [None] == [None];
    assert p1.columns[1 := [None]] == p2.columns;
    assert StepCell(Returned(p1), 1, Some(time)) == Returned(p2);
    assert AfterCells(Returned(p0), g[0], 1) == Returned(p1);
  }

  /** The same on a table: a header of two stations and one row whose
      first cell is empty and whose second prints a time of day. */
  lemma EmptyCellLosesLaterTime(t: Table, time: HourMinute)
    requires time.hours < 24 && time.minutes < 60
    requires |t.headers| == 2 && t.rows == [["", FormatTime(time)]]
    ensures TransposeAsWritten(t).Returned? && TransposeAsWritten(t).result[1].departures == [None]
    ensures Transposed(t).Returned? && Transposed(t).result[1].departures == [Some(MinutesOf(time))]
  {
    EmptyCellThenTime(time);
    assert Parsed(t) == [[None, Some(time)]];
    UnreadableCellLosesLaterTime(t.headers, time);
  }

  /** A minutes value of 60 rolls the shared date over to the next day, and
      every later cell of the table is read on that day. */
  lemma AsWrittenRollsOver()
    ensures AfterRows(2, [[Some(HourMinute(23, 60)), Some(HourMinute(1, 0))]], 1)
      == Returned(Progress([[Some(1440)], [Some(1500)]], Valid(1500)))
  {
    var g: Grid := [[Some(HourMinute(23, 60)), Some(HourMinute(1, 0))]];
    var p0 := Progress([[], []], Valid(0));
    assert Start(2) == p0;
    var p1 := Progress([[Some(1440)], []], Valid(1440));
    assert p0.columns[0] + [Some(1440)] == [Some(1440)];
    assert p0.columns[0 := [Some(1440)]] == p1.columns;
    assert StepCell(Returned(p0), 0, g[0][0]) == Returned(p1);
    var p2 := Progress([[Some(1440)], [Some(1500)]], Valid(1500));
    assert p1.columns[1] + [Some(1500)] == [Some(1500)];
    assert p1.columns[1 := [Some(1500)]] == p2.columns;
    assert StepCell(Returned(p1), 1, g[0][1]) == Returned(p2);
    assert AfterCells(Returned(p0), g[0], 1) == Returned(p1);
  }

  /** A row `23:60`, `01:00` under two stations: as written the second
      departure lands on the next day, read on its own it is 01:00. No hour
      reaches 24, yet the readings differ. */
  lemma MinutesOverflowShiftsLaterTime(headers: seq<string>)
    requires |headers| == 2
    ensures CollectAsWritten(headers, [[Some(HourMinute(23, 60)), Some(HourMinute(1, 0))]]).Returned?
    ensures CollectAsWritten(headers, [[Some(HourMinute(23, 60)), Some(HourMinute(1, 0))]]).result[1].departures
      == [Some(1500)]
    ensures Collect(headers, [[Some(HourMinute(23, 60)), Some(HourMinute(1, 0))]]).Returned?
    ensures Collect(headers, [[Some(HourMinute(23, 60)), Some(HourMinute(1, 0))]]).result[1].departures
      == [Some(60)]
  {
    AsWrittenRollsOver();
    var g: Grid := [[Some(HourMinute(23, 60)), Some(HourMinute(1, 0))]];
    assert g[..0] == [];
  }
}
