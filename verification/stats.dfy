/**
 * The four report sections the program prints for the filtered rows
 * (`time_stats`, `station_stats`, `trip_duration_stats`, `user_stats`),
 * computed as values, and the whole pipeline from a loaded table and a
 * (month, day) selection to the report.
 */
module Stats {
  import opened Wrappers
  import opened Orders
  import opened Seqs
  import opened Aggregates
  import opened Trips
  import opened Filters

  // ---------------------------------------------------------------- columns

  function Months(rows: seq<Trip>): seq<int> {
    Project(rows, (t: Trip) => t.month as int)
  }

  function DayNames(rows: seq<Trip>): seq<string> {
    Project(rows, (t: Trip) => WeekdayName(t.weekday))
  }

  function Hours(rows: seq<Trip>): seq<int> {
    Project(rows, (t: Trip) => t.startHour as int)
  }

  function StartStations(rows: seq<Trip>): seq<string> {
    Project(rows, (t: Trip) => t.startStation)
  }

  function EndStations(rows: seq<Trip>): seq<string> {
    Project(rows, (t: Trip) => t.endStation)
  }

  function StationPairs(rows: seq<Trip>): seq<(string, string)> {
    Project(rows, (t: Trip) => (t.startStation, t.endStation))
  }

  function Durations(rows: seq<Trip>): seq<nat> {
    Project(rows, (t: Trip) => t.duration)
  }

  // ---------------------------------------------------------------- time_stats

  datatype TimeStats = TimeStats(month: int, weekday: string, hour: int)

  /** The most common month, weekday name and start hour, ties to the smallest. */
  function TimeStatsOf(rows: seq<Trip>): (r: TimeStats)
    requires |rows| > 0
    ensures IsMode(Months(rows), IntLe, r.month) && 1 <= r.month <= 12
    ensures IsMode(DayNames(rows), StringLe, r.weekday)
    ensures IsMode(Hours(rows), IntLe, r.hour) && 0 <= r.hour < 24
    ensures exists i :: 0 <= i < |rows| && rows[i].startHour == r.hour
  {
    IntLeIsTotalOrder();
    StringLeIsTotalOrder();
    var month := Mode(Months(rows), IntLe);
    var hour := Mode(Hours(rows), IntLe);
    MonthOfSomeRow(rows, month);
    HourOfSomeRow(rows, hour);
    TimeStats(month, Mode(DayNames(rows), StringLe), hour)
  }

  /** A value of the month column is a calendar month. */
  lemma MonthOfSomeRow(rows: seq<Trip>, m: int)
    requires m in Months(rows)
    ensures 1 <= m <= 12
  {
    var i :| 0 <= i < |rows| && Months(rows)[i] == m;
  }

  /** A value of the hour column is the start hour of some row. */
  lemma HourOfSomeRow(rows: seq<Trip>, h: int)
    requires h in Hours(rows)
    ensures 0 <= h < 24 && exists i :: 0 <= i < |rows| && rows[i].startHour == h
  {
    var i :| 0 <= i < |rows| && Hours(rows)[i] == h;
    assert rows[i].startHour == h;
  }

  // ---------------------------------------------------------------- station_stats

  /** A (start, end) combination with the number of trips that made it. */
  datatype TripCount = TripCount(start: string, end: string, count: nat)

  datatype StationStats = StationStats(start: string, end: string, trip: TripCount)

  /** The number of rows that start at `start` and end at `end`. */
  function RowsBetween(rows: seq<Trip>, start: string, end: string): nat {
    |Keep(rows, (t: Trip) => t.startStation == start && t.endStation == end)|
  }

  /**
   * `groupby(['Start Station', 'End Station']).size().nlargest(1)`: the most
   * frequent combination with its count; `groupby` sorts the keys and
   * `nlargest` keeps the first of tied ones, so ties go to the smallest pair.
   */
  function MostCommonTrip(rows: seq<Trip>): (r: TripCount)
    requires |rows| > 0
    ensures r.count == RowsBetween(rows, r.start, r.end) && r.count >= 1
    ensures forall i :: 0 <= i < |rows| ==> RowsBetween(rows, rows[i].startStation, rows[i].endStation) <= r.count
    ensures forall i :: 0 <= i < |rows| && RowsBetween(rows, rows[i].startStation, rows[i].endStation) == r.count ==>
      PairLe((r.start, r.end), (rows[i].startStation, rows[i].endStation))
  {
    PairLeIsTotalOrder();
    var p := Mode(StationPairs(rows), PairLe);
    PairModeIsMostCommon(rows, p);
    TripCount(p.0, p.1, RowsBetween(rows, p.0, p.1))
  }

  /** The rows between two stations are as many as the pair column holds that pair. */
  lemma RowsBetweenCountsPairs(rows: seq<Trip>, a: string, b: string)
    ensures RowsBetween(rows, a, b) == multiset(StationPairs(rows))[(a, b)]
  {
    KeepCountsProjection(rows, (t: Trip) => (t.startStation, t.endStation), (a, b),
      (t: Trip) => t.startStation == a && t.endStation == b);
  }

  /** The mode of the pair column is a combination no other is more frequent than. */
  lemma PairModeIsMostCommon(rows: seq<Trip>, p: (string, string))
    requires IsMode(StationPairs(rows), PairLe, p)
    ensures RowsBetween(rows, p.0, p.1) >= 1
    ensures forall i :: 0 <= i < |rows| ==>
      RowsBetween(rows, rows[i].startStation, rows[i].endStation) <= RowsBetween(rows, p.0, p.1)
    ensures forall i ::
      0 <= i < |rows| && RowsBetween(rows, rows[i].startStation, rows[i].endStation) == RowsBetween(rows, p.0, p.1)
      ==> PairLe(p, (rows[i].startStation, rows[i].endStation))
  {
    var pairs := StationPairs(rows);
    RowsBetweenCountsPairs(rows, p.0, p.1);
    forall i | 0 <= i < |rows|
      ensures pairs[i] in pairs
      ensures RowsBetween(rows, rows[i].startStation, rows[i].endStation) == multiset(pairs)[pairs[i]]
    {
      RowsBetweenCountsPairs(rows, rows[i].startStation, rows[i].endStation);
    }
  }

  /** The most common start station, end station and combination. */
  function StationStatsOf(rows: seq<Trip>): (r: StationStats)
    requires |rows| > 0
    ensures IsMode(StartStations(rows), StringLe, r.start)
    ensures IsMode(EndStations(rows), StringLe, r.end)
    ensures r.trip == MostCommonTrip(rows)
  {
    StringLeIsTotalOrder();
    StationStats(Mode(StartStations(rows), StringLe), Mode(EndStations(rows), StringLe), MostCommonTrip(rows))
  }

  // ---------------------------------------------------------------- trip_duration_stats

  datatype DurationStats = DurationStats(totalMinutes: nat, meanMinutes: nat)

  /** Total and mean trip duration in whole minutes, both rounded up. */
  function DurationStatsOf(rows: seq<Trip>): (r: DurationStats)
    requires |rows| > 0
    ensures Sum(Durations(rows)) <= r.totalMinutes * 60 < Sum(Durations(rows)) + 60
    ensures r.meanMinutes == CeilDiv(r.totalMinutes, |rows|)
    ensures r.meanMinutes <= r.totalMinutes
  {
    MeanFromTotal(Durations(rows));
    DurationStats(TotalMinutes(Durations(rows)), MeanMinutes(Durations(rows)))
  }

  // ---------------------------------------------------------------- user_stats

  datatype UserStats = UserStats(
    userTypes: Option<seq<Tally<string>>>,
    genders: Option<seq<Tally<string>>>,
    birthYears: Option<Spread>)

  /** Some row of the table has a birth year. */
  predicate HasSomeBirthYear(t: Table) {
    exists i :: 0 <= i < |t.rows| && t.rows[i].birthYear.Some?
  }

  /**
   * `first_last_common(df, 'Birth Year')` when the file has the column: the
   * earliest, latest and most common of the birth years that are present.
   */
  function BirthYearSpread(t: Table): (r: Option<Spread>)
    requires t.schema.hasBirthYear ==> HasSomeBirthYear(t)
    ensures r.Some? <==> t.schema.hasBirthYear
    ensures r.Some? ==> forall i :: 0 <= i < |t.rows| && t.rows[i].birthYear.Some? ==>
      r.value.earliest <= t.rows[i].birthYear.value <= r.value.latest
    ensures r.Some? ==> exists i :: 0 <= i < |t.rows| && t.rows[i].birthYear == Some(r.value.mostCommon)
    ensures r.Some? ==> exists i :: 0 <= i < |t.rows| && t.rows[i].birthYear == Some(r.value.earliest)
    ensures r.Some? ==> exists i :: 0 <= i < |t.rows| && t.rows[i].birthYear == Some(r.value.latest)
    ensures r.Some? ==> IsMode(Present(BirthYears(t).value), IntLe, r.value.mostCommon)
  {
    if !t.schema.hasBirthYear then None
    else
      var years := BirthYears(t).value;
      BirthYearColumn(t, years);
      var spread := FirstLastCommon(years);
      SpreadOfRows(t, years, spread);
      Some(spread)
  }

  /** What `FirstLastCommon` promises about the birth-year column, restated for the rows. */
  lemma SpreadOfRows(t: Table, years: seq<Option<int>>, spread: Spread)
    requires |years| == |t.rows| && forall i :: 0 <= i < |t.rows| ==> years[i] == t.rows[i].birthYear
    requires Some(spread.mostCommon) in years && Some(spread.earliest) in years && Some(spread.latest) in years
    requires forall i :: 0 <= i < |years| && years[i].Some? ==> spread.earliest <= years[i].value <= spread.latest
    ensures forall i :: 0 <= i < |t.rows| && t.rows[i].birthYear.Some? ==>
      spread.earliest <= t.rows[i].birthYear.value <= spread.latest
    ensures exists i :: 0 <= i < |t.rows| && t.rows[i].birthYear == Some(spread.mostCommon)
    ensures exists i :: 0 <= i < |t.rows| && t.rows[i].birthYear == Some(spread.earliest)
    ensures exists i :: 0 <= i < |t.rows| && t.rows[i].birthYear == Some(spread.latest)
  {
    BirthYearColumnHas(t, years, spread.mostCommon);
    BirthYearColumnHas(t, years, spread.earliest);
    BirthYearColumnHas(t, years, spread.latest);
  }

  /** The birth-year column has an entry wherever some row has a birth year. */
  lemma BirthYearColumn(t: Table, years: seq<Option<int>>)
    requires HasSomeBirthYear(t)
    requires |years| == |t.rows| && forall i :: 0 <= i < |t.rows| ==> years[i] == t.rows[i].birthYear
    ensures exists i :: 0 <= i < |years| && years[i].Some?
  {
    var i :| 0 <= i < |t.rows| && t.rows[i].birthYear.Some?;
    assert years[i].Some?;
  }

  /** A year the birth-year column holds is the birth year of some row. */
  lemma BirthYearColumnHas(t: Table, years: seq<Option<int>>, y: int)
    requires |years| == |t.rows| && forall i :: 0 <= i < |t.rows| ==> years[i] == t.rows[i].birthYear
    requires Some(y) in years
    ensures exists i :: 0 <= i < |t.rows| && t.rows[i].birthYear == Some(y)
  {
    var i :| 0 <= i < |years| && years[i] == Some(y);
    assert t.rows[i].birthYear == Some(y);
  }

  /**
   * The user-type and gender counts (absent when the file has no such column)
   * and the birth-year spread (absent likewise). With the birth-year column
   * present but every birth year missing, the source fails.
   */
  function UserStatsOf(t: Table): (r: UserStats)
    requires t.schema.hasBirthYear ==> HasSomeBirthYear(t)
    ensures r.userTypes.Some? <==> t.schema.hasUserType
    ensures r.genders.Some? <==> t.schema.hasGender
    ensures r.userTypes.Some? ==> TotalCount(r.userTypes.value) == |t.rows| - multiset(UserTypes(t).value)[None]
    ensures r.genders.Some? ==> TotalCount(r.genders.value) == |t.rows| - multiset(Genders(t).value)[None]
    ensures TotalOrder(StringLe) && r.userTypes == CountAll(UserTypes(t), StringLe)
    ensures TotalOrder(StringLe) && r.genders == CountAll(Genders(t), StringLe)
    ensures r.birthYears == BirthYearSpread(t)
  {
    StringLeIsTotalOrder();
    var userTypes := CountAll(UserTypes(t), StringLe);
    var genders := CountAll(Genders(t), StringLe);
    CountedColumn(UserTypes(t), |t.rows|);
    CountedColumn(Genders(t), |t.rows|);
    UserStats(userTypes, genders, BirthYearSpread(t))
  }

  /** The `count_all` table of an optional text column of `n` cells counts its non-missing cells. */
  lemma CountedColumn(col: Option<seq<Option<string>>>, n: nat)
    requires col.Some? ==> |col.value| == n
    ensures TotalOrder(StringLe)
    ensures CountAll(col, StringLe).Some? <==> col.Some?
    ensures col.Some? ==> TotalCount(CountAll(col, StringLe).value) == n - multiset(col.value)[None]
  {
    StringLeIsTotalOrder();
  }

  // ---------------------------------------------------------------- the report

  datatype Report = Report(time: TimeStats, stations: StationStats, durations: DurationStats, users: UserStats)

  /** All four sections for a table with at least one row. */
  function ReportOf(t: Table): Report
    requires |t.rows| > 0
    requires t.schema.hasBirthYear ==> HasSomeBirthYear(t)
  {
    Report(TimeStatsOf(t.rows), StationStatsOf(t.rows), DurationStatsOf(t.rows), UserStatsOf(t))
  }

  /** The exceptions that end a run of the source between loading and printing. */
  datatype AnalysisError =
    | BadMonth(month: string)   // `list.index` of an unknown month
    | NoTrips                   // `mode()[0]` of an empty column
    | NoBirthYears              // `first_last_common` of a column with no values

  /**
   * `load_data` followed by the four statistics functions on the selected
   * rows; the cases the source fails on are errors.
   */
  function Analyse(t: Table, month: string, day: string): (r: Result<Report, AnalysisError>)
    ensures r.Ok? <==>
      && FilterRows(t.rows, month, day).Ok?
      && |FilterRows(t.rows, month, day).value| > 0
      && (t.schema.hasBirthYear ==> HasSomeBirthYear(Table(t.schema, FilterRows(t.rows, month, day).value)))
    ensures r.Ok? ==> r.value == ReportOf(Table(t.schema, FilterRows(t.rows, month, day).value))
    ensures FilterRows(t.rows, month, day).Err? ==> r == Err(BadMonth(FilterRows(t.rows, month, day).error.month))
  {
    match FilterRows(t.rows, month, day)
    case Err(UnknownMonth(m)) => Err(BadMonth(m))
    case Ok(rows) =>
      var selected := Table(t.schema, rows);
      if |rows| == 0 then Err(NoTrips)
      else if t.schema.hasBirthYear && !HasSomeBirthYear(selected) then Err(NoBirthYears)
      else Ok(ReportOf(selected))
  }

  /** Selecting all months and all days reports on the loaded table as it is. */
  lemma AnalyseAllIsUnfiltered(t: Table)
    requires |t.rows| > 0
    requires t.schema.hasBirthYear ==> HasSomeBirthYear(t)
    ensures Analyse(t, "all", "all") == Ok(ReportOf(t))
  {
  }

  /** A selection that leaves no rows fails rather than reporting. */
  lemma AnalyseEmptySelectionFails(t: Table, month: string, day: string)
    requires FilterRows(t.rows, month, day) == Ok([])
    ensures Analyse(t, month, day) == Err(NoTrips)
  {
  }
}
