/**
 * One city's trip table after loading: each row carries the calendar fields
 * derived from its start time (month, weekday name, start hour) next to the
 * columns read from the city's file. Columns a city does not report are
 * marked absent in the table's schema; a missing cell in a present column is
 * `None`.
 */
module Trips {
  import opened Wrappers
  import opened Seqs

  datatype Weekday = Monday | Tuesday | Wednesday | Thursday | Friday | Saturday | Sunday

  /** The calendar week in order, as pandas numbers it. */
  const WEEK: seq<Weekday> := [Monday, Tuesday, Wednesday, Thursday, Friday, Saturday, Sunday]

  /** `Series.dt.weekday_name`. */
  function WeekdayName(w: Weekday): (r: string)
    ensures 6 <= |r| <= 9
  {
    match w
    case Monday => "Monday"
    case Tuesday => "Tuesday"
    case Wednesday => "Wednesday"
    case Thursday => "Thursday"
    case Friday => "Friday"
    case Saturday => "Saturday"
    case Sunday => "Sunday"
  }

  lemma WeekdayNameInjective(v: Weekday, w: Weekday)
    requires WeekdayName(v) == WeekdayName(w)
    ensures v == w
  {
  }

  /** `DatetimeIndex.month`. */
  type Month = m: int | 1 <= m <= 12 witness 1

  /** `Series.dt.hour`. */
  type Hour = h: int | 0 <= h < 24 witness 0

  /** A trip row with its derived fields; durations are whole seconds. */
  datatype Trip = Trip(
    month: Month,
    weekday: Weekday,
    startHour: Hour,
    duration: nat,
    startStation: string,
    endStation: string,
    userType: Option<string>,
    gender: Option<string>,
    birthYear: Option<int>)

  /** Which optional columns the loaded file has. */
  datatype Schema = Schema(hasUserType: bool, hasGender: bool, hasBirthYear: bool)

  datatype Table = Table(schema: Schema, rows: seq<Trip>)

  /** `df['User Type']`, or nothing when the file has no such column. */
  function UserTypes(t: Table): (r: Option<seq<Option<string>>>)
    ensures r.Some? <==> t.schema.hasUserType
    ensures r.Some? ==> |r.value| == |t.rows| && forall i :: 0 <= i < |t.rows| ==> r.value[i] == t.rows[i].userType
  {
    if t.schema.hasUserType then Some(Project(t.rows, (x: Trip) => x.userType)) else None
  }

  /** `df['Gender']`, or nothing when the file has no such column. */
  function Genders(t: Table): (r: Option<seq<Option<string>>>)
    ensures r.Some? <==> t.schema.hasGender
    ensures r.Some? ==> |r.value| == |t.rows| && forall i :: 0 <= i < |t.rows| ==> r.value[i] == t.rows[i].gender
  {
    if t.schema.hasGender then Some(Project(t.rows, (x: Trip) => x.gender)) else None
  }

  /** `df['Birth Year']`, or nothing when the file has no such column. */
  function BirthYears(t: Table): (r: Option<seq<Option<int>>>)
    ensures r.Some? <==> t.schema.hasBirthYear
    ensures r.Some? ==> |r.value| == |t.rows| && forall i :: 0 <= i < |t.rows| ==> r.value[i] == t.rows[i].birthYear
  {
    if t.schema.hasBirthYear then Some(Project(t.rows, (x: Trip) => x.birthYear)) else None
  }
}
