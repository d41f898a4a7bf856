/**
 * The filter stage of `load_data`: an optional month filter and an optional
 * day-of-week filter over the loaded rows, plus the fixed menus of cities,
 * months and days the program offers.
 */
module Filters {
  import opened Wrappers
  import opened Text
  import opened Seqs
  import opened Trips

  /** The keys of `CITY_DATA`, in order. */
  const CITIES: seq<string> := ["chicago", "new york city", "washington"]

  /** The month menu, `'all'` first. */
  const MONTHS: seq<string> := ["all", "january", "february", "march", "april", "may", "june"]

  /** The day menu, `'all'` first. */
  const DAYS: seq<string> :=
    ["all", "monday", "tuesday", "wednesday", "thursday", "friday", "saturday", "sunday"]

  /** The months `load_data` can filter by, in calendar order. */
  const MONTH_NAMES: seq<string> := ["january", "february", "march", "april", "may", "june"]

  /** `CITY_DATA[city]`; an unknown city is a `KeyError` in the source. */
  function CityFile(city: string): (r: Option<string>)
    ensures r.Some? <==> city in CITIES
  {
    if city == "chicago" then Some("chicago.csv")
    else if city == "new york city" then Some("new_york_city.csv")
    else if city == "washington" then Some("washington.csv")
    else None
  }

  /** `xs.index(x)`: the first position of `x`, or nothing (a `ValueError` in the source). */
  function IndexOf(xs: seq<string>, x: string): (r: Option<nat>)
    ensures r.Some? <==> x in xs
    ensures r.Some? ==> r.value < |xs| && xs[r.value] == x && forall j :: 0 <= j < r.value ==> xs[j] != x
  {
    if |xs| == 0 then None
    else if xs[0] == x then Some(0)
    else
      match IndexOf(xs[1..], x)
      case None => None
      case Some(i) => Some(i + 1)
  }

  /** `months.index(month.lower()) + 1`: the calendar number of a month name. */
  function MonthNumber(month: string): (r: Option<int>)
    ensures r.Some? <==> Lower(month) in MONTH_NAMES
    ensures r.Some? ==> 1 <= r.value <= 6 && MONTH_NAMES[r.value - 1] == Lower(month)
  {
    match IndexOf(MONTH_NAMES, Lower(month))
    case None => None
    case Some(i) => Some(i + 1)
  }

  lemma MonthNamesDistinct()
    ensures forall j, k :: 0 <= j < k < |MONTH_NAMES| ==> MONTH_NAMES[j] != MONTH_NAMES[k]
  {
  }

  /** Each month of the menu is lower case, so it needs no lower-casing. */
  lemma MonthChoiceIsLowerCase(i: nat)
    requires 1 <= i < |MONTHS|
    ensures Lower(MONTHS[i]) == MONTHS[i] == MONTH_NAMES[i - 1]
  {
    LowerOfLowerCase(MONTHS[i]);
  }

  /** The menu's months are numbered 1 to 6 in calendar order. */
  lemma MonthNumberOfChoice(i: nat)
    requires 1 <= i < |MONTHS|
    ensures MonthNumber(MONTHS[i]) == Some(i)
  {
    MonthChoiceIsLowerCase(i);
    var r := MonthNumber(MONTHS[i]);
    assert MONTH_NAMES[i - 1] == Lower(MONTHS[i]);
    assert r.Some? && MONTH_NAMES[r.value - 1] == MONTH_NAMES[i - 1];
    MonthNamesDistinct();
  }

  /** The `ValueError` of `list.index`, naming the lower-cased month it could not find. */
  datatype FilterError = UnknownMonth(month: string)

  /** A row passes the month filter. */
  predicate MonthMatches(t: Trip, month: string) {
    month == "all" || MonthNumber(month) == Some(t.month)
  }

  /** A row passes the day filter: its weekday name equals `day.title()`. */
  predicate DayMatches(t: Trip, day: string) {
    day == "all" || WeekdayName(t.weekday) == Title(day)
  }

  /** A row passes both filters. */
  predicate Selected(t: Trip, month: string, day: string) {
    MonthMatches(t, month) && DayMatches(t, day)
  }

  /**
   * The two filters of `load_data` in the source's order: the month filter,
   * then the day filter, each skipped when its argument is exactly `'all'`.
   */
  function MonthThenDay(rows: seq<Trip>, month: string, day: string): (r: seq<Trip>)
    ensures IsSubsequence(r, rows)
    ensures forall t :: t in r ==> MonthMatches(t, month) && DayMatches(t, day)
  {
    var m := (t: Trip) => MonthMatches(t, month);
    var d := (t: Trip) => DayMatches(t, day);
    if month == "all" && day == "all" then
      SubsequenceReflexive(rows);
      rows
    else if month == "all" then
      KeepSatisfies(rows, d);
      Keep(rows, d)
    else if day == "all" then
      KeepSatisfies(rows, m);
      Keep(rows, m)
    else
      KeepThenKeep(rows, m, d);
      Keep(Keep(rows, m), d)
  }

  /** Filtering in two stages is one selection by both conditions. */
  lemma MonthThenDayIsSelection(rows: seq<Trip>, month: string, day: string)
    ensures MonthThenDay(rows, month, day) == Keep(rows, (t: Trip) => Selected(t, month, day))
  {
    var m := (t: Trip) => MonthMatches(t, month);
    var d := (t: Trip) => DayMatches(t, day);
    var sel := (t: Trip) => Selected(t, month, day);
    if month == "all" && day == "all" {
      KeepAll(rows, sel);
    } else if month == "all" {
      KeepSamePredicate(rows, d, sel);
    } else if day == "all" {
      KeepSamePredicate(rows, m, sel);
    } else {
      KeepKeep(rows, m, d, sel);
    }
  }

  /**
   * The filtering of `load_data`: exactly the rows that pass both filters, in
   * their original order. A month that is neither `'all'` nor, once
   * lower-cased, one of `MONTH_NAMES` fails.
   */
  function FilterRows(rows: seq<Trip>, month: string, day: string): (r: Result<seq<Trip>, FilterError>)
    ensures r.Err? <==> month != "all" && Lower(month) !in MONTH_NAMES
    ensures r.Ok? ==> |r.value| <= |rows| && IsSubsequence(r.value, rows)
    ensures r.Ok? ==> forall t :: multiset(r.value)[t] == if Selected(t, month, day) then multiset(rows)[t] else 0
  {
    if month != "all" && MonthNumber(month).None? then Err(UnknownMonth(Lower(month)))
    else
      MonthThenDayIsSelection(rows, month, day);
      Ok(MonthThenDay(rows, month, day))
  }

  /** Whenever the month is accepted, `load_data` keeps exactly the selected rows. */
  lemma FilterRowsSelects(rows: seq<Trip>, month: string, day: string)
    requires month == "all" || MonthNumber(month).Some?
    ensures FilterRows(rows, month, day) == Ok(Keep(rows, (t: Trip) => Selected(t, month, day)))
  {
    MonthThenDayIsSelection(rows, month, day);
  }

  /** With both arguments `'all'` the rows come back unchanged. */
  lemma FilterAllIsIdentity(rows: seq<Trip>)
    ensures FilterRows(rows, "all", "all") == Ok(rows)
  {
  }

  /** Filtering the filtered rows again with the same arguments changes nothing. */
  lemma FilterIdempotent(rows: seq<Trip>, month: string, day: string)
    requires month == "all" || MonthNumber(month).Some?
    ensures FilterRows(FilterRows(rows, month, day).value, month, day) == FilterRows(rows, month, day)
  {
    var sel := (t: Trip) => Selected(t, month, day);
    var r := FilterRows(rows, month, day).value;
    MonthThenDayIsSelection(rows, month, day);
    MonthThenDayIsSelection(r, month, day);
    KeepIdempotent(rows, sel);
  }

  /** Applying the day filter before the month filter gives the same rows. */
  lemma FilterOrderIrrelevant(rows: seq<Trip>, month: string, day: string)
    requires month == "all" || MonthNumber(month).Some?
    ensures FilterRows(rows, month, day).value
         == Keep(Keep(rows, (t: Trip) => DayMatches(t, day)), (t: Trip) => MonthMatches(t, month))
  {
    var sel := (t: Trip) => Selected(t, month, day);
    MonthThenDayIsSelection(rows, month, day);
    KeepKeep(rows, (t: Trip) => DayMatches(t, day), (t: Trip) => MonthMatches(t, month), sel);
  }

  /** Choosing the i-th month of the menu keeps exactly the rows of calendar month i, in order. */
  lemma MonthFilterOfChoice(rows: seq<Trip>, i: nat)
    requires 1 <= i < |MONTHS|
    ensures FilterRows(rows, MONTHS[i], "all") == Ok(Keep(rows, (t: Trip) => t.month == i))
  {
    MonthNumberOfChoice(i);
    MonthThenDayIsSelection(rows, MONTHS[i], "all");
    KeepSamePredicate(rows, (t: Trip) => Selected(t, MONTHS[i], "all"), (t: Trip) => t.month == i);
  }

  /** The day menu's entries after `"all"` are words of lower-case letters. */
  lemma DayChoiceIsLowerWord(i: nat)
    requires 1 <= i < |DAYS|
    ensures |DAYS[i]| > 0 && forall k :: 0 <= k < |DAYS[i]| ==> IsLower(DAYS[i][k])
  {
  }

  /** Raising the first letter of the i-th day entry gives the name of the i-th weekday. */
  lemma DayChoiceCapitalised(i: nat)
    requires 1 <= i < |DAYS|
    ensures |DAYS[i]| > 0 && [UpperChar(DAYS[i][0])] + DAYS[i][1..] == WeekdayName(WEEK[i - 1])
  {
    var d := DAYS[i];
    assert d[1..] == WeekdayName(WEEK[i - 1])[1..];
    assert UpperChar(d[0]) == WeekdayName(WEEK[i - 1])[0];
  }

  /** The day menu's entries title-case to the weekday names, Monday first. */
  lemma DayChoiceTitle(i: nat)
    requires 1 <= i < |DAYS|
    ensures Title(DAYS[i]) == WeekdayName(WEEK[i - 1])
  {
    DayChoiceIsLowerWord(i);
    DayChoiceCapitalised(i);
    TitleOfLowerWord(DAYS[i]);
  }

  /** A row passes the filter for the i-th day of the menu exactly when it falls on that weekday. */
  lemma DayMatchesChoice(t: Trip, i: nat)
    requires 1 <= i < |DAYS|
    ensures DayMatches(t, DAYS[i]) <==> t.weekday == WEEK[i - 1]
  {
    DayChoiceTitle(i);
    if WeekdayName(t.weekday) == Title(DAYS[i]) {
      WeekdayNameInjective(t.weekday, WEEK[i - 1]);
    }
  }

  /** Choosing the i-th day of the menu keeps exactly the rows on that weekday, in order. */
  lemma DayFilterOfChoice(rows: seq<Trip>, i: nat)
    requires 1 <= i < |DAYS|
    ensures FilterRows(rows, "all", DAYS[i]) == Ok(Keep(rows, (t: Trip) => t.weekday == WEEK[i - 1]))
  {
    var d := (t: Trip) => DayMatches(t, DAYS[i]);
    assert |DAYS[i]| >= 6;
    assert FilterRows(rows, "all", DAYS[i]) == Ok(Keep(rows, d));
    forall t ensures d(t) == (t.weekday == WEEK[i - 1]) {
      DayMatchesChoice(t, i);
    }
    KeepSamePredicate(rows, d, (t: Trip) => t.weekday == WEEK[i - 1]);
  }

  /** The day is compared after title-casing, so the case it is written in does not matter. */
  lemma DayFilterIgnoresCase(rows: seq<Trip>, month: string, day: string)
    requires Lower(day) != "all"
    ensures FilterRows(rows, month, Lower(day)) == FilterRows(rows, month, day)
  {
    if day == "all" {
      LowerOfLowerCase(day);
    }
    TitleIgnoresCase(day);
    MonthThenDayIsSelection(rows, month, day);
    MonthThenDayIsSelection(rows, month, Lower(day));
    KeepSamePredicate(rows, (t: Trip) => Selected(t, month, day), (t: Trip) => Selected(t, month, Lower(day)));
  }

  /** The month is looked up after lower-casing, so the case it is written in does not matter. */
  lemma MonthFilterIgnoresCase(rows: seq<Trip>, month: string, day: string)
    requires Lower(month) != "all"
    ensures FilterRows(rows, Lower(month), day) == FilterRows(rows, month, day)
  {
    LowerIdempotent(month);
    if month == "all" {
      LowerOfLowerCase(month);
      assert false;
    }
    if MonthNumber(month).Some? {
      SelectedIgnoresMonthCase(month, day);
      FilterRowsSelects(rows, month, day);
      FilterRowsSelects(rows, Lower(month), day);
      KeepSamePredicate(rows, (t: Trip) => Selected(t, month, day), (t: Trip) => Selected(t, Lower(month), day));
    }
  }

  /** A month other than `'all'` selects the same rows as its lower-cased form. */
  lemma SelectedIgnoresMonthCase(month: string, day: string)
    requires month != "all" && Lower(month) != "all"
    ensures forall t :: Selected(t, month, day) == Selected(t, Lower(month), day)
  {
    LowerIdempotent(month);
  }

  /**
   * Only the exact string `'all'` switches the month filter off: `"ALL"` is
   * looked up as a month name and the lookup fails.
   */
  lemma UpperCaseAllMonthFails(rows: seq<Trip>, day: string)
    ensures FilterRows(rows, "ALL", day).Err?
  {
    assert Lower("ALL") == "all";
  }

  /** Only the exact string `'all'` switches the day filter off: `"ALL"` matches no weekday. */
  lemma UpperCaseAllDayKeepsNothing(rows: seq<Trip>)
    ensures FilterRows(rows, "all", "ALL") == Ok([])
  {
  }

  /** Every city of the menu names a data file. */
  lemma CityChoicesHaveFiles(i: nat)
    requires 0 <= i < |CITIES|
    ensures CityFile(CITIES[i]).Some?
  {
  }
}
