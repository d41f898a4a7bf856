# Bikeshare filter-and-aggregate core, modelled in Dafny

The program being modelled is `bikeshare.py`, an interactive command-line tool. It loads one
city's bicycle-share trips, lets the user narrow them to a month and/or a day of the week,
and prints summary statistics. This project models its pure core as immutable datatypes and
functions over sequences:

- **Filter engine** (`Filters`): `load_data`'s month filter and day filter. A month name is
  lower-cased and mapped to its number 1..6. A day is compared, title-cased, with the weekday
  name. Only the exact string `'all'` turns a filter off, and an unknown month is the
  `ValueError` of `list.index`.
- **Aggregators** (`Aggregates`, `Stats`):
  - the mode (`Series.mode()[0]`), with ties going to the smallest value because pandas
    sorts the modes;
  - `count_all`: one row per distinct non-missing value, in ascending order, or nothing for
    an absent column;
  - `first_last_common`;
  - the most frequent (start station, end station) combination and its count;
  - total and mean trip duration in minutes, both rounded up;
  - the most common month, weekday and start hour.
- **Input resolution** (`Prompts`): the decision one pass of `get_user_choice` makes (prefix
  matching, the first match wins, confirmation unless the match is exact), and one pass of
  `get_user_num` (`'all'` gives the maximum, otherwise an integer in the inclusive range).
- **Pipeline** (`Stats.Analyse`): filter, then the four report sections. The cases where the
  program stops with an exception are reported as errors.

Supporting modules: `Wrappers` (`Option`, `Result`); `Text` (ASCII `lower`, `title`,
slicing); `Seqs` (order-preserving selection `Keep` and projection `Project`, with a
subsequence relation); `Orders` (the total orders pandas sorts by: integers, strings by code
point, station pairs lexicographically); `Trips` (the trip record with its derived month,
weekday and start hour, and a schema recording which optional columns a city's file has).

Modelling choices:

- Missing cells (NaN) of the User Type, Gender and Birth Year columns are `None`. A column the file does not have is a `None` column.
- Durations are whole seconds, so the ceilings are exact integer ceilings.
- Where the source raises on empty data (`mode()[0]`; `math.ceil` of the NaN that `.mean()`
  returns for no trips; `first_last_common` of an all-missing column), the single-section functions require
  non-empty input, and `Analyse` returns `NoTrips` or `NoBirthYears`.
- An absent column gives no `count_all` table (`None`), matching the function's fall-through
  return.

Two behaviours of the code are stated as lemmas, not changed:

- The empty input is a prefix of every menu entry. So it picks the first entry and asks for
  confirmation, although the docstring speaks of non-zero-size input
  (`Prompts.EmptyInputPicksFirst`).
- `'all'` in `get_user_num` returns the range maximum unchecked. For the range `[1, 0]` of an
  empty table it yields 0 (`Prompts.AllIgnoresEmptyRange`).

## Model

| member | source | states |
|---|---|---|
| Text.Lower | bikeshare.py:29 | `str.lower` keeps the length and lowers each character on its own |
| Text.Truncate | bikeshare.py:31 | `val[:n]` is the first `n` characters, or the whole string when it is shorter; the result is always a prefix |
| Text.TitleIgnoresCase | bikeshare.py:169 | `day.title()` is the same whatever case `day` was typed in |
| Text.TitleIdempotent | bikeshare.py:169 | title-casing an already title-cased name changes nothing |
| Text.TitleOfLowerWord | bikeshare.py:169 | a lower-case word title-cases to itself with its first letter raised |
| Text.Title | bikeshare.py:169 | `day.title()` keeps the length, raises the first character and every character after a non-letter, and lowers every character after a letter |
| Seqs.Keep | bikeshare.py:164-169 | a boolean-mask filter returns a subsequence of the rows holding each satisfying row exactly as often as the input and no other row |
| Seqs.KeepUnique | bikeshare.py:164-169 | the filter result is the only subsequence with those multiplicities, so "exactly the matching rows, in original order" pins it down |
| Seqs.KeepIdempotent | bikeshare.py:164-169 | applying the same mask filter twice is applying it once |
| Seqs.KeepCommutes | bikeshare.py:157-169 | two mask filters may be applied in either order |
| Seqs.KeepCountsProjection | bikeshare.py:220 | the number of rows with a given key equals the key's multiplicity in the key column |
| Orders.StringLeIsTotalOrder | bikeshare.py:88-89 | Python string order, by code point with a prefix first, is a total order, so sorted modes have a well-defined first entry |
| Orders.PairLeIsTotalOrder | bikeshare.py:220 | the lexicographic order of `(start, end)` group keys is a total order |
| Aggregates.Mode | bikeshare.py:88-89 | `mode()[0]` of a non-empty column is a value of the column that no value occurs more often than, and the smallest of the values tied with it |
| Aggregates.ModeUnique | bikeshare.py:88-89 | at most one value meets that description, so the mode is determined |
| Aggregates.ModeOfMonthsExample | bikeshare.py:195 | the months `[1, 1, 3, 1]` have mode 1 |
| Aggregates.ModeTieExample | bikeshare.py:88-89 | for `[3, 1, 3, 1]` the tie goes to the smaller value, 1 |
| Aggregates.Present | bikeshare.py:98 | `dropna` keeps each non-missing value as often as it occurs and has one entry per non-missing cell |
| Aggregates.Min | bikeshare.py:105 | `min()` is a member of the column no larger than any entry |
| Aggregates.Max | bikeshare.py:105 | `max()` is a member of the column no smaller than any entry |
| Aggregates.FirstLastCommon | bikeshare.py:103-105 | `[min, max, mode]` of the non-missing entries: all three occur in the column, min and max bound every entry, the third is the mode, and min <= mode <= max |
| Aggregates.Insert | bikeshare.py:98 | adding a key to the ascending list of distinct group keys keeps it ascending and distinct, and adds `x` to the set of keys |
| Aggregates.Distinct | bikeshare.py:98 | the `groupby` keys are the distinct values of the column in ascending order |
| Aggregates.CountAll | bikeshare.py:92-100 | an absent column gives no table; a present one gives one row per distinct non-missing value, ascending, each count >= 1 and equal to that value's occurrences, the counts summing to the number of non-missing cells |
| Aggregates.SumOfTallies | bikeshare.py:98 | the group sizes of distinct keys covering a column add up to the column's length |
| Aggregates.CeilDiv | bikeshare.py:236 | `ceil(a / b)` is the least whole number whose multiple of `b` reaches `a` |
| Aggregates.Sum | bikeshare.py:236 | the summed durations are at least each single duration, and zero exactly when every duration is zero |
| Aggregates.SumConcat | bikeshare.py:236 | the sum of two columns placed end to end is the sum of their sums |
| Aggregates.CeilDivUnique | bikeshare.py:236 | only one whole number satisfies those bounds |
| Aggregates.TotalMinutes | bikeshare.py:236 | the total is the number of whole minutes that first covers the summed seconds |
| Aggregates.MeanMinutes | bikeshare.py:239 | the mean is the number of whole minutes that first covers the summed seconds shared over the trips |
| Aggregates.MeanFromTotal | bikeshare.py:236-239 | the rounded-up mean equals the rounded-up total shared over the trips and rounded up again, and never exceeds the total |
| Aggregates.DurationExample | bikeshare.py:236-239 | durations 61, 119 and 180 seconds give total 6 and mean 2 minutes |
| Trips.UserTypes | bikeshare.py:96 | the `User Type` column exists exactly when the file has it, and then holds each row's entry |
| Trips.Genders | bikeshare.py:96 | the `Gender` column exists exactly when the file has it, and then holds each row's entry |
| Trips.BirthYears | bikeshare.py:264 | the `Birth Year` column exists exactly when the file has it, and then holds each row's entry |
| Filters.CityFile | bikeshare.py:110-112 | `CITY_DATA[city]` names a file exactly for the three menu cities |
| Filters.IndexOf | bikeshare.py:161 | `list.index` finds the first position holding the value, and fails exactly when the value is absent |
| Filters.MonthNumber | bikeshare.py:158-161 | a month name has a number exactly when its lower-cased form is one of the six month names; the number is in 1..6 and indexes that name |
| Filters.MonthNumberOfChoice | bikeshare.py:160-161 | the i-th month of the menu gets number i |
| Filters.MonthThenDayIsSelection | bikeshare.py:157-171 | the month filter followed by the day filter is one selection of the rows passing both |
| Filters.MonthThenDay | bikeshare.py:157-169 | the two filters in the source's order keep a subsequence of the rows, each passing both filters |
| Filters.FilterRows | bikeshare.py:157-171 | filtering fails exactly for a month that is not `'all'` and not a known name; otherwise it returns a subsequence of the rows, no longer than them, holding exactly the rows that pass both filters as often as they occur |
| Filters.FilterRowsSelects | bikeshare.py:157-171 | whenever the month is `'all'` or a known name, filtering succeeds with exactly the rows passing both filters, in their original order |
| Filters.FilterAllIsIdentity | bikeshare.py:157-171 | with `'all'` for both month and day the rows come back unchanged |
| Filters.FilterIdempotent | bikeshare.py:157-171 | filtering the filtered rows again with the same arguments changes nothing |
| Filters.FilterOrderIrrelevant | bikeshare.py:157-171 | applying the day filter first gives the same rows |
| Filters.MonthFilterOfChoice | bikeshare.py:158-164 | the i-th menu month keeps exactly the rows of calendar month i, in order |
| Filters.DayChoiceTitle | bikeshare.py:169 | each menu day title-cases to the matching weekday name |
| Filters.DayMatchesChoice | bikeshare.py:169 | a row passes the filter for a menu day exactly when it falls on that weekday |
| Filters.DayFilterOfChoice | bikeshare.py:167-169 | the i-th menu day keeps exactly the rows on that weekday, in order |
| Filters.DayFilterIgnoresCase | bikeshare.py:167-169 | a day other than `'all'` filters the same whatever case it is typed in |
| Filters.MonthFilterIgnoresCase | bikeshare.py:158-164 | a month other than `'all'` filters, or fails, the same whatever case it is typed in |
| Filters.UpperCaseAllMonthFails | bikeshare.py:158-161 | `'ALL'` as a month is not the `'all'` switch; its lookup fails |
| Filters.UpperCaseAllDayKeepsNothing | bikeshare.py:167-169 | `'ALL'` as a day is not the `'all'` switch; it matches no weekday and keeps no rows |
| Filters.CityChoicesHaveFiles | bikeshare.py:110-112 | every menu city has a data file |
| Stats.TimeStatsOf | bikeshare.py:188-201 | the reported month, weekday name and hour are the modes of their columns, with the month in 1..12 and the hour in 0..23 taken from some trip |
| Stats.MostCommonTrip | bikeshare.py:219-221 | the reported combination's count is the number of trips with that exact start and end; no trip's combination is more frequent, and tied combinations sort no earlier |
| Stats.RowsBetweenCountsPairs | bikeshare.py:220 | the trips between two stations are as many as the (start, end) column holds that pair |
| Stats.PairModeIsMostCommon | bikeshare.py:220-221 | the mode of the (start, end) column occurs at least once, no trip's combination occurs more often, and tied combinations sort no earlier |
| Stats.StationStatsOf | bikeshare.py:207-221 | the reported start and end stations are the modes of their columns |
| Stats.DurationStatsOf | bikeshare.py:227-239 | the total rounds the summed seconds up to minutes; the mean is the total shared over the trips rounded up, and at most the total |
| Stats.BirthYearSpread | bikeshare.py:264-271 | birth-year statistics exist exactly when the column does; earliest and latest bound every recorded year and are both some trip's year (the min and the max); the most common is the mode of the recorded years |
| Stats.UserStatsOf | bikeshare.py:248-271 | the user-type and gender tables exist exactly when their columns do, are the `count_all` tables of those columns, and their counts add up to the rows that have a value |
| Stats.Analyse | bikeshare.py:283-289 | the pipeline succeeds exactly when the filter succeeds, leaves rows, and leaves a birth year if the file has that column; it then reports on the filtered rows, and an unknown month is reported as such |
| Stats.AnalyseAllIsUnfiltered | bikeshare.py:157-171 | selecting all months and days reports on the loaded table as it is |
| Stats.AnalyseEmptySelectionFails | bikeshare.py:195 | a selection that leaves no rows fails rather than reporting |
| Prompts.PrefixMatchesIsPrefix | bikeshare.py:31-37 | `choice[:len(s)] == s` holds exactly when `s` is a prefix of `choice` |
| Prompts.TestList | bikeshare.py:31 | each choice cut to the input's length equals the input exactly when the input is a prefix of that choice |
| Prompts.ResolveChoice | bikeshare.py:29-45 | nothing is picked exactly when the lower-cased input starts no choice; otherwise the first choice it starts is picked, and confirmation is asked exactly when the input differs from it |
| Prompts.PicksFirst | bikeshare.py:36-45 | when the lower-cased input starts entry i and no earlier entry, entry i is picked, with a question exactly when the input is not the whole entry |
| Prompts.ChoiceStep | bikeshare.py:26-53 | the input is not valid exactly when nothing matches; an accepted value is always the first matching entry; an exact match is accepted as typed; an inexact match is accepted exactly when the answer starts with y or Y, gives `NoAnswer` for an empty answer and `Declined` otherwise |
| Prompts.ExactEntryNeedsNoConfirmation | bikeshare.py:44-45 | typing an entry in full picks it without a question when no earlier entry starts with it |
| Prompts.MonthsPrefixFree | bikeshare.py:114 | no entry of the month menu starts with an earlier entry |
| Prompts.DaysPrefixFree | bikeshare.py:115 | no entry of the day menu starts with an earlier entry |
| Prompts.MonthEntriesNeedNoConfirmation | bikeshare.py:114 | every month-menu entry typed in full is taken as it is |
| Prompts.DayEntriesNeedNoConfirmation | bikeshare.py:115 | every day-menu entry typed in full is taken as it is |
| Prompts.AbbreviatedMonth | bikeshare.py:31-39 | `Ju` resolves to `june` with a confirmation question |
| Prompts.AmbiguousDayPicksFirst | bikeshare.py:36-39 | `t` resolves to `tuesday`, the first day it starts, with a question |
| Prompts.EmptyInputPicksFirst | bikeshare.py:29-47 | the empty input picks the first entry and asks for confirmation |
| Prompts.ShadowedEntryNeedsConfirmation | bikeshare.py:36-45 | an entry that an earlier entry starts with needs confirmation even when typed in full |
| Prompts.UnofferedMonthIsNotValid | bikeshare.py:35-41 | `july` starts no month-menu entry and is not valid |
| Prompts.ChosenMonthFilters | bikeshare.py:134 | a month picked from the menu never makes the month lookup fail |
| Prompts.ChosenCityHasFile | bikeshare.py:131 | a city picked from the menu always has a data file |
| Prompts.StripLeft | bikeshare.py:76 | leading whitespace removal drops only whitespace and leaves a suffix that starts with no whitespace |
| Prompts.StripRight | bikeshare.py:76 | trailing whitespace removal drops only whitespace and leaves a prefix that ends with no whitespace |
| Prompts.ParseInt | bikeshare.py:76 | `int()` succeeds exactly when the stripped text is an optional sign followed by at least one digit; the value is negative only after `-`, and its magnitude is the value of the digits |
| Prompts.SeparatorIsNotSkipped | bikeshare.py:76 | `"\x1c5"` is not an integer: the separators `\x1c`..`\x1f` are not skipped as whitespace |
| Prompts.ShowNat | bikeshare.py:76 | the decimal digits of a number read back as that number |
| Prompts.ParseShow | bikeshare.py:76 | `int(str(n)) == n` for every integer |
| Prompts.ResolveNumber | bikeshare.py:72-79 | `all` in any case gives the maximum; a non-integer is rejected as such; an integer is accepted, as itself, exactly when min <= x <= max, and is otherwise out of range |
| Prompts.EveryNumberInRangeAccepted | bikeshare.py:61 | every number of the inclusive range, written out, is accepted as itself |
| Prompts.EveryNumberOutsideRangeRejected | bikeshare.py:78-79 | every number outside the range, written out, is rejected as out of range |
| Prompts.AllIgnoresEmptyRange | bikeshare.py:72-74 | `all` gives the maximum even when the range is empty |

## Left out

- Reading the city's CSV file (`pd.read_csv`): file I/O through a library outside the model.
- Timestamp parsing and the derivation of month, weekday and start hour (`pd.to_datetime`,
  `DatetimeIndex.month`, `dt.weekday_name`, `dt.hour`). These come from a library outside
  the model, so each trip carries them as fields.
- The `input()`/`print` retry loops of `get_user_choice` and `get_user_num`, `get_filters`,
  `view_raw_data`'s row preview, and the restart loop of `main`. These are console
  interaction; only the decision one pass of each loop makes is modelled.
- The timing of each section (`time.time`): a wall clock, used only for display.
- `pd.set_option('precision', 2)` and all console formatting: presentation only.
- Floating point: durations are whole seconds and birth years are integers, so the ceilings
  are exact. Float rounding of large sums is not modelled.
- Text.Lower: lowers ASCII letters only; Python's `str.lower` also lowers other alphabets.
  Every menu entry is ASCII.
- Text.Title: raises and lowers ASCII letters only, and treats only ASCII letters as cased.
- Prompts.ParseInt: accepts ASCII digits, one optional sign and, around them, the six
  characters space, `\t`, `\n`, `\v`, `\f` and `\r`. Python's `int()` also accepts `_`
  between digits, non-ASCII digits and non-ASCII whitespace.
- Missing start stations, end stations and trip durations: `Trip` holds them as plain
  values, so files with gaps in those columns are not covered. pandas would leave such gaps
  out of `mode()`, `groupby` and `.sum()`.
- Prompts.ChoiceStep: the confirmation answer is a parameter rather than a second `input()`
  call. An empty answer, which makes the source stop with an `IndexError`, is the error
  `NoAnswer`.
- The `count_all` table is a sequence of (value, count) rows rather than a DataFrame, and its
  "Printing ..." / "There is no ... data" messages are not modelled.
