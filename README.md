# SurfsUp climate API — Dafny model

This project models the query and reshaping logic of the SurfsUp climate API
(`SurfsUp/app.py`). The API answers questions about a Hawaiian weather
snapshot that has two tables: `measurement` (station, date, precipitation,
observed temperature) and `station`. The route handlers do the following:

- `/api/v1.0/precipitation` finds the latest measurement date and goes back
  365 days to get the start of a trailing window. It selects `(date, prcp)`
  for every row on or after that start, ordered by date, and folds the rows
  into a dictionary from date to precipitation.
- `/api/v1.0/stations` reshapes every `(id, station, name)` row of the
  station table into a record.
- `/api/v1.0/tobs` computes the same window and then ignores it. It queries
  the temperatures of the hard-coded station `USC00519281` from the
  hard-coded date `2016-08-23`.
- `/api/v1.0/<start>` and `/api/v1.0/<start>/<end>` return one
  `{TMIN, TAVG, TMAX}` record over the rows with `date >= start`, resp.
  `start <= date <= end`.

The model has five modules:

- `Wrappers` (`wrappers.dfy`): `Option` and `Result`.
- `Calendar` (`calendar.dfy`): Python's `datetime.date`, namely years 1 to
  9999, the proleptic Gregorian day ordinal, and `date - timedelta(days=k)`
  with its OverflowError.
- `IsoText` (`iso_text.dfy`): the `YYYY-MM-DD` text form stored in the date
  column, and SQLite's BINARY comparison of TEXT values. The lemma
  `IsoText.IsoOrder` proves that text order on that form is chronological
  order.
- `Store` (`store.dfy`): the tables and the SQL each handler issues, as pure
  functions.
  - `WHERE` is a filter that keeps storage order.
  - `ORDER BY date` is a stable insertion sort.
  - `MIN`/`AVG`/`MAX` skip NULLs and give NULL when no value remains.
- `ClimateApp` (`climate_app.dfy`): the handlers as methods. The Python
  `for` loops become loops with invariants, and the exceptions become
  `Result` failures:
  - an empty table: indexing `None` raises TypeError, giving
    `NoMeasurements`;
  - the window falls below 0001-01-01 (OverflowError), giving
    `DateOverflow`;
  - a row does not unpack into two names (ValueError), giving
    `UnpackMismatch`.

Every SQL date bound is compared as text, because the date column is TEXT. A
Python `date` bound is bound as its ISO text. The `start` and `end` path
segments reach the query unchanged, so they can be any string.
Nothing checks them either: a malformed value or an `end` before `start`
raises no error. It selects whatever rows text comparison admits, and with no
rows all three aggregates are NULL (`ClimateApp.ReversedRangeIsAllNull`).

## Model

| member | source | states |
|---|---|---|
| `Calendar.OrdinalOrder` | SurfsUp/app.py:60-61 | chronological order of two dates and numeric order of their day ordinals agree, in both directions |
| `Calendar.OrdinalInjective` | SurfsUp/app.py:60-61 | two valid dates with the same day ordinal are the same date |
| `Calendar.PrevDay` | SurfsUp/app.py:61 | the day before a date exists exactly when the ordinal exceeds 1, and its ordinal is one less |
| `Calendar.SubtractDaysTo` | SurfsUp/app.py:61 | the date whose ordinal is `k` below that of `d` is `d - timedelta(days=k)` |
| `Calendar.SubtractDays` | SurfsUp/app.py:61 | `d - timedelta(days=k)` succeeds exactly when the ordinal of `d` exceeds `k`, and then lands `k` ordinals earlier; otherwise it is the overflow |
| `IsoText.TextLe` | SurfsUp/app.py:140 | SQLite's BINARY comparison of two TEXT values: a prefix of the other text comes first, and a proper extension of it comes last |
| `IsoText.TextLeFirstDifference` | SurfsUp/app.py:140 | for two texts that agree up to some position and differ there, the characters at that position decide the comparison |
| `IsoText.TextLeTransitive` | SurfsUp/app.py:140 | SQLite's text comparison is transitive |
| `IsoText.TextLeTotal` | SurfsUp/app.py:140 | any two texts are comparable |
| `IsoText.DigitsOrder` | SurfsUp/app.py:64 | zero-padded decimals of one width are equal only for equal numbers, and compare as text as the numbers compare |
| `IsoText.Iso` | SurfsUp/app.py:60-64 | the stored text of a date, and the text a Python date is bound as; its contract gives only the length, 10; its shape and its order are stated by the next two rows |
| `IsoText.IsoShape` | SurfsUp/app.py:60 | the text has the `YYYY-MM-DD` shape that `strptime(..., '%Y-%m-%d')` reads: dashes at positions 4 and 7, digits everywhere else |
| `IsoText.IsoOrder` | SurfsUp/app.py:64 | on stored ISO dates, text `<=` is chronological `<=`, and the text form is unique |
| `IsoText.YearPrefixStart` | SurfsUp/app.py:140 | a bare four-digit year as the text bound admits exactly the dates of that year and later |
| `Store.Holds` | SurfsUp/app.py:118-119 | whether a row meets a WHERE clause of lines 64, 118-119, 140 and 160: every clause requires the date text to be at or after its start; the two-sided clause holds exactly when the date text also is at or before the end; the station clause fails on any other station |
| `Store.DateFromIso` | SurfsUp/app.py:64 | filtering `date >= start` with a Python date `start` keeps exactly the rows on or after that date |
| `Store.Where` | SurfsUp/app.py:140 | a row is in the result exactly when it is in the table and meets the condition |
| `Store.WhereCounts` | SurfsUp/app.py:140 | the filter keeps each row meeting the condition as often as it occurs, and no other row |
| `Store.WhereAppend` | SurfsUp/app.py:64 | filtering a concatenation filters each part, so storage order is kept |
| `Store.WhereAgree` | SurfsUp/app.py:160 | two conditions that agree on every row select the same rows |
| `Store.WhereAll` | SurfsUp/app.py:64 | a condition that every row meets selects the whole table in order |
| `Store.LatestDate` | SurfsUp/app.py:56 | `ORDER BY date DESC` then `.first()`: none exactly for an empty table, otherwise a date of some row that no row's date exceeds |
| `Store.InsertByDate` | SurfsUp/app.py:64 | inserting into a date-sorted sequence keeps it sorted and adds exactly that row |
| `Store.OrderByDate` | SurfsUp/app.py:64 | `ORDER BY date` yields a date-sorted permutation of its input |
| `Store.OrderByDateSorted` | SurfsUp/app.py:64 | on input already in date order the sort changes nothing, including the order of equal dates |
| `Store.PermutationOfWhere` | SurfsUp/app.py:64 | a permutation of the filtered rows has their length and their members |
| `Store.PrecipitationQueryInOrder` | SurfsUp/app.py:64 | a table already in date order whose rows all lie on or after the start comes back row for row in storage order |
| `Store.InsertByDateRows` | SurfsUp/app.py:64 | inserting a row into sorted rows adds exactly its `(date, prcp)` pair, counted with multiplicity |
| `Store.OrderByDateRows` | SurfsUp/app.py:64 | `ORDER BY date` keeps every `(date, prcp)` pair of its input, each as often as it occurs |
| `Store.PrecipitationQuery` | SurfsUp/app.py:64 | the rows are a permutation of the `(date, prcp)` pairs of the measurements dated on or after the start, NULLs kept, in ascending date text; a pair is present exactly when some such measurement yields it |
| `Store.StationQuery` | SurfsUp/app.py:84 | one result row per station, in storage order, holding that station's `id`, `station` and `name` columns |
| `Store.TobsOnlyQuery` | SurfsUp/app.py:117-119 | every result row has the single `tobs` column, one row per qualifying measurement |
| `Store.DateTobsQuery` | SurfsUp/app.py:117-119 | every result row has the two columns `date, tobs` of its measurement |
| `Store.TobsValues` | SurfsUp/app.py:140 | the non-NULL temperatures of the rows: empty exactly when every temperature is NULL, one value per row that has a temperature (as many as `count(tobs)`), summing to those rows' temperatures |
| `Store.Minimum` | SurfsUp/app.py:140 | `MIN` is one of the values and bounds all of them from below |
| `Store.Maximum` | SurfsUp/app.py:140 | `MAX` is one of the values and bounds all of them from above |
| `Store.MeanBetween` | SurfsUp/app.py:140 | the exact mean of values between `lo` and `hi` lies between them |
| `Store.ExtremesAttained` | SurfsUp/app.py:140 | the least and greatest non-NULL temperatures belong to some rows and bound every row's temperature |
| `Store.SumBetween` | SurfsUp/app.py:140 | a sum of `n` values between `lo` and `hi` lies between `n*lo` and `n*hi` |
| `Store.TobsAggregate` | SurfsUp/app.py:140 | each of MIN, AVG and MAX is NULL exactly when every temperature is NULL; MIN and MAX are attained and bound every value; AVG is the sum of the non-NULL temperatures over the number of rows that have one; MIN <= AVG <= MAX |
| `Store.AverageCountsEveryRow` | SurfsUp/app.py:140 | AVG counts every row: temperatures 70, 70 and 80 average 220/3 |
| `Store.AggregateQuery` | SurfsUp/app.py:140 | an aggregate query without GROUP BY returns exactly one row |
| `ClimateApp.TrailingWindowStart` | SurfsUp/app.py:56-61 | fails with NoMeasurements exactly on an empty table and with DateOverflow when the latest ordinal is at most 365; otherwise it is exactly 365 days before the latest date |
| `ClimateApp.WindowStartIs` | SurfsUp/app.py:56-61 | the date exactly 365 days before the latest measurement date is the window start |
| `ClimateApp.WindowMembership` | SurfsUp/app.py:61-64 | a date is in the window exactly when its ordinal is at most 365 below the latest one |
| `ClimateApp.WindowAcrossLeapDay` | SurfsUp/app.py:61 | the window is 365 days rather than a calendar year: 2016-03-01 reaches back to 2015-03-02 |
| `ClimateApp.LastOfDateExists` | SurfsUp/app.py:71-72 | every date of the rows has a last row carrying it |
| `ClimateApp.LastWriteWinsUnique` | SurfsUp/app.py:70-72 | the rows determine the dictionary: any two dictionaries that satisfy last-write-wins for them are equal |
| `ClimateApp.LastWriteWinsStep` | SurfsUp/app.py:72 | one more assignment `dict[date] = prcp` keeps last-write-wins for the extended rows |
| `ClimateApp.PrecipitationDict` | SurfsUp/app.py:70-72 | the loop leaves one key per distinct date, holding the value of the last row of that date |
| `ClimateApp.Precipitation` | SurfsUp/app.py:56-75 | window failures propagate; otherwise the keys are the texts of the dates on or after the window start, each holding the last such row's precipitation in date order |
| `ClimateApp.PrecipitationKeys` | SurfsUp/app.py:64-72 | the dates of the precipitation rows are the distinct dates of the measurements on or after the start |
| `ClimateApp.PrecipitationKeysInWindow` | SurfsUp/app.py:56-72 | every key is the text of a measurement date at most 365 days before the latest date, and not after it |
| `ClimateApp.ExampleWindow` | SurfsUp/app.py:56-61 | with latest date 2017-01-02 the window starts at 2016-01-03 |
| `ClimateApp.ExampleDates` | SurfsUp/app.py:64 | the stored text of 2017-01-01 and 2017-01-02 |
| `ClimateApp.ExampleRows` | SurfsUp/app.py:64 | the `(date, prcp)` rows of the example table, with the NULL of the first 2017-01-02 row kept |
| `ClimateApp.ExampleQuery` | SurfsUp/app.py:64 | on the example table the query rows are ordered by date, and the two rows of one date keep their storage order |
| `ClimateApp.ExampleDict` | SurfsUp/app.py:70-72 | a later row of the same date overwrites an earlier one, including an earlier NULL |
| `ClimateApp.PrecipitationExample` | SurfsUp/app.py:50-75 | on the example table the route answers `{"2017-01-01": 0.5, "2017-01-02": 0.1}` |
| `ClimateApp.Stations` | SurfsUp/app.py:84-102 | one record per station row, in table order, with `id`, `station` and `name` taken from positions 0, 1 and 2 |
| `ClimateApp.UnpackDateTobs` | SurfsUp/app.py:124-129 | succeeds exactly when every row has two columns, and otherwise fails with UnpackMismatch; on success there is one `{date, tobs}` record per row, taken from its two columns |
| `ClimateApp.Tobs` | SurfsUp/app.py:109-131 | as written: window failures propagate; otherwise it succeeds exactly when the station/date filter selects no row, and then the list is empty |
| `ClimateApp.TobsFailsOnOneRow` | SurfsUp/app.py:117-125 | a table whose one row is of the hard-coded station, dated on or after 2016-08-23 and late enough for the window, has a valid window; the filter selects that row, and no result row has two columns |
| `ClimateApp.TobsOnOneRow` | SurfsUp/app.py:112-125 | the route as written answers such a table with the unpacking error |
| `ClimateApp.TobsCorrected` | SurfsUp/app.py:117-129 | with `date` selected too: one record per selected row in table order, whose date is the text of the row's date and whose tobs is its temperature; every selected row is of `USC00519281` and dated on or after 2016-08-23 |
| `ClimateApp.HardCodedStartText` | SurfsUp/app.py:118 | the literal `'2016-08-23'` is the text of 2016-08-23, so as a bound it selects the rows on or after that day |
| `ClimateApp.HardCodedStartIsWindowOf` | SurfsUp/app.py:112-118 | the hard-coded start equals the computed window start for exactly one latest date, 2017-08-23 |
| `ClimateApp.AnchorOrdinals` | SurfsUp/app.py:114 | 2016-08-23 lies exactly 365 days before 2017-08-23 |
| `ClimateApp.Summaries` | SurfsUp/app.py:143-149 | one `{TMIN, TAVG, TMAX}` record per result row, in order, taken from its three columns |
| `ClimateApp.StartDate` | SurfsUp/app.py:137-151 | exactly one record, the aggregates of the rows with `date >= start`; TMIN is NULL exactly when every such row's temperature is NULL; TAVG is those rows' temperature sum over their count; TMIN <= TAVG <= TMAX |
| `ClimateApp.StartEndDate` | SurfsUp/app.py:157-171 | exactly one record, the aggregates of the rows with `start <= date <= end`; TMIN is NULL exactly when every such row's temperature is NULL; TAVG is those rows' temperature sum over their count; TMIN <= TAVG <= TMAX |
| `ClimateApp.ReversedRangeIsAllNull` | SurfsUp/app.py:160 | an end before the start selects nothing, so all three aggregates are NULL |
| `ClimateApp.ClosedRangeAtLatestIsOpenRange` | SurfsUp/app.py:140-160 | an end at or after the latest date gives the same aggregates as the open-ended query |
| `ClimateApp.YearOnlyStart` | SurfsUp/app.py:136-140 | the unvalidated start `2017` selects every row dated in 2017 or later |

## Left out

- HTTP wiring is not modelled: Flask, the routes' URL parsing, the welcome page (lines 37-48), `jsonify` and `app.run`. The handlers take the database snapshot and their path arguments as parameters.
- The engine and session, `Base.prepare` reflection, `session.close()` and the `print` at line 57 have no effect on the results and are not modelled.
- `strptime` at lines 60 and 113 is not modelled. It parses only the latest stored date in text order, and a malformed date there raises ValueError. A malformed date anywhere else raises nothing: the filters compare it as text, and line 72 can make it a dictionary key. The model takes every stored date to be a valid `YYYY-MM-DD` date (`Calendar.Date`), so both cases are outside it.
- Float arithmetic is not modelled: temperatures and precipitation are exact reals, so `AVG` is the exact mean and its rounding is not captured.
- The `measurement.id` column and the `station` table's location columns are not read by the handlers and are not modelled.
- `Store.OrderByDate`: SQL leaves the order of rows with equal dates unspecified. The model fixes it as storage order (a stable sort), so the dictionary value for such a date is stated for that order only.
- `ClimateApp.Tobs`: the comment at line 104 promises the most-active station over the previous year of data. Neither a most-active-station derivation nor a use of the computed window is modelled, because the code hard-codes both (lines 118-119) and the model follows the code; `ClimateApp.HardCodedStartIsWindowOf` states when the hard-coded date and the window coincide.
- `ClimateApp.TobsCorrected`: the result keeps table order, because the query at 117-119 has no `ORDER BY`; it is not stated to be in date order.
- A library type mismatch at the SQL boundary is not modelled: a temperature that is not numeric, or a start that SQLite would convert rather than compare as text.

## Findings

| source | as written | input that shows it | evidently intended | confidence | as-written member | corrected member |
|---|---|---|---|---|---|---|
| SurfsUp/app.py:117-125 | the query selects only `measurement.tobs`, but the loop unpacks each one-column row into `date, tobs` | a table with the one row `USC00519281`, 2017-08-23, tobs 81.0; any row of that station dated on or after 2016-08-23 will do (`ClimateApp.TobsFailsOnOneRow`, `ClimateApp.TobsOnOneRow`). Unpacking the one-column row raises ValueError, so the route fails whenever it has data | select `measurement.date, measurement.tobs` so that each row unpacks into one `{date, tobs}` record | not executed | `ClimateApp.Tobs` | `ClimateApp.TobsCorrected` |
