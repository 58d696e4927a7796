/** The route handlers of the climate API: each one queries the snapshot and
    reshapes the result rows, in a loop, into the records the API returns. */
module ClimateApp {
  import opened Wrappers
  import opened Calendar
  import opened IsoText
  import opened Store

  /** The exceptions a handler raises. */
  datatype Error =
    | NoMeasurements  // `.first()` gave None and indexing it raised TypeError
    | DateOverflow    // `latest - timedelta(days=365)` fell below 0001-01-01
    | UnpackMismatch  // a result row did not unpack into `date, tobs`

  /** The length of the trailing window, in days. */
  const WINDOW_DAYS: nat := 365

  /** The station and the first date hard-coded in the temperature listing. */
  const TOBS_STATION: string := "USC00519281"
  const TOBS_START: string := "2016-08-23"
  const TOBS_FILTER: Condition := StationDateFrom(TOBS_START, TOBS_STATION)

  /** The JSON records the handlers return. A `StationRecord` has the same
      fields as a `Store.StationRow`, but it is the dictionary the handler
      builds from the three columns of a result row, not the table row. */
  datatype StationRecord = StationRecord(id: int, station: string, name: string)
  datatype TobsRecord = TobsRecord(date: Column, tobs: Column)
  datatype TemperatureSummary = TemperatureSummary(tmin: Option<real>, tavg: Option<real>, tmax: Option<real>)

  // ---------------------------------------------------------------------------
  // The trailing window
  // ---------------------------------------------------------------------------

  /** The latest measurement date minus 365 days: fails when the table is
      empty (no first row) and when the subtraction leaves Python's date
      range. */
  function TrailingWindowStart(ms: seq<Measurement>): (r: Result<Date, Error>)
    ensures r == Failure(NoMeasurements) <==> ms == []
    ensures ms != [] ==> (r.Success? <==> Ordinal(LatestDate(ms).value) > WINDOW_DAYS)
    ensures ms != [] && r.Failure? ==> r.error == DateOverflow
    ensures r.Success? ==> Ordinal(r.value) == Ordinal(LatestDate(ms).value) - WINDOW_DAYS
  {
    match LatestDate(ms)
    case None => Failure(NoMeasurements)
    case Some(latest) =>
      match SubtractDays(latest, WINDOW_DAYS)
      case None => Failure(DateOverflow)
      case Some(start) => Success(start)
  }

  /** A date exactly 365 days before the latest measurement date is the
      window start. */
  lemma WindowStartIs(ms: seq<Measurement>, start: Date)
    requires LatestDate(ms).Some?
    requires Ordinal(start) + WINDOW_DAYS == Ordinal(LatestDate(ms).value)
    ensures TrailingWindowStart(ms) == Success(start)
  {
    SubtractDaysTo(LatestDate(ms).value, WINDOW_DAYS, start);
  }

  /** A date is in the window exactly when it lies at most 365 days before
      the latest measurement date; every measurement date is at or before
      the latest one. */
  lemma WindowMembership(ms: seq<Measurement>, d: Date)
    requires TrailingWindowStart(ms).Success?
    ensures AtOrBefore(TrailingWindowStart(ms).value, d)
      <==> Ordinal(d) >= Ordinal(LatestDate(ms).value) - WINDOW_DAYS
  {
    OrdinalOrder(d, TrailingWindowStart(ms).value);
  }

  /** The window is 365 days and not one calendar year: from 2016-03-01 it
      reaches back to 2015-03-02, because February 2016 has 29 days. */
  lemma WindowAcrossLeapDay()
    ensures SubtractDays(Ymd(2016, 3, 1), WINDOW_DAYS) == Some(Ymd(2015, 3, 2))
  {
    assert Ordinal(Ymd(2015, 3, 2)) + WINDOW_DAYS == Ordinal(Ymd(2016, 3, 1));
    SubtractDaysTo(Ymd(2016, 3, 1), WINDOW_DAYS, Ymd(2015, 3, 2));
  }

  /** The hard-coded `'2016-08-23'` is the text of 2016-08-23, so as a text
      bound it selects the rows dated on or after that day. */
  lemma HardCodedStartText(d: Date)
    ensures Iso(Ymd(2016, 8, 23)) == TOBS_START
    ensures TextLe(TOBS_START, Iso(d)) <==> AtOrBefore(Ymd(2016, 8, 23), d)
  {
    assert Iso(Ymd(2016, 8, 23)) == TOBS_START;
    IsoOrder(Ymd(2016, 8, 23), d);
  }

  /** The date hard-coded in the temperature listing is the text of the
      window start of exactly one latest date, 2017-08-23. */
  lemma HardCodedStartIsWindowOf(latest: Date)
    ensures (SubtractDays(latest, WINDOW_DAYS).Some? && Iso(SubtractDays(latest, WINDOW_DAYS).value) == TOBS_START)
      <==> latest == Ymd(2017, 8, 23)
  {
    var anchor: Date := Ymd(2017, 8, 23);
    var hardCoded: Date := Ymd(2016, 8, 23);
    var r := SubtractDays(latest, WINDOW_DAYS);
    assert Iso(hardCoded) == TOBS_START by {
      HardCodedStartText(hardCoded);
    }
    if r.Some? && Iso(r.value) == TOBS_START {
      assert r.value == hardCoded by {
        IsoOrder(r.value, hardCoded);
      }
      assert latest == anchor by {
        AnchorOrdinals();
        OrdinalInjective(latest, anchor);
      }
    }
    if latest == anchor {
      assert r == Some(hardCoded) by {
        AnchorOrdinals();
        SubtractDaysTo(anchor, WINDOW_DAYS, hardCoded);
      }
    }
  }

  lemma AnchorOrdinals()
    ensures Ordinal(Ymd(2016, 8, 23)) == Ordinal(Ymd(2017, 8, 23)) - WINDOW_DAYS
    ensures Ordinal(Ymd(2017, 8, 23)) > WINDOW_DAYS
  {
  }

  // ---------------------------------------------------------------------------
  // /api/v1.0/precipitation
  // ---------------------------------------------------------------------------

  /** Row `i` is the last row of its date. */
  predicate IsLastOfDate(rows: seq<(string, Option<real>)>, i: int)
    requires 0 <= i < |rows|
  {
    forall j :: i < j < |rows| ==> rows[j].0 != rows[i].0
  }

  function DatesOf(rows: seq<(string, Option<real>)>): set<string> {
    set i | 0 <= i < |rows| :: rows[i].0
  }

  /** `dict` is what assigning `dict[date] = prcp` for the rows in order
      leaves: one key per distinct date, holding the value of the last row
      with that date. */
  predicate LastWriteWins(rows: seq<(string, Option<real>)>, dict: map<string, Option<real>>) {
    && dict.Keys == DatesOf(rows)
    && forall i :: 0 <= i < |rows| && IsLastOfDate(rows, i) ==> rows[i].0 in dict && dict[rows[i].0] == rows[i].1
  }

  /** Every date of the rows has a last row. */
  lemma {:induction false} LastOfDateExists(rows: seq<(string, Option<real>)>, d: string) returns (i: int)
    requires d in DatesOf(rows)
    ensures 0 <= i < |rows| && rows[i].0 == d && IsLastOfDate(rows, i)
  {
    var n := |rows| - 1;
    if rows[n].0 == d {
      i := n;
    } else {
      var k :| 0 <= k < |rows| && rows[k].0 == d;
      assert rows[..n][k] == rows[k];
      i := LastOfDateExists(rows[..n], d);
      assert rows[..n][i] == rows[i];
      assert forall j :: i < j < n ==> rows[..n][j] == rows[j];
    }
  }

  /** The rows determine the dictionary: two dictionaries that both satisfy
      `LastWriteWins` for the same rows are equal. */
  lemma LastWriteWinsUnique(rows: seq<(string, Option<real>)>, a: map<string, Option<real>>, b: map<string, Option<real>>)
    requires LastWriteWins(rows, a) && LastWriteWins(rows, b)
    ensures a == b
  {
    forall d | d in a
      ensures a[d] == b[d]
    {
      var i := LastOfDateExists(rows, d);
    }
  }

  /** The loop of the precipitation handler: `prcp_dict[date] = prcp` for
      each row, in order. */
  method PrecipitationDict(rows: seq<(string, Option<real>)>) returns (dict: map<string, Option<real>>)
    ensures LastWriteWins(rows, dict)
  {
    dict := map[];
    var k := 0;
    while k < |rows|
      invariant 0 <= k <= |rows|
      invariant LastWriteWins(rows[..k], dict)
    {
      var (date, prcp) := rows[k];
      LastWriteWinsStep(rows[..k], dict, date, prcp);
      PrefixStep(rows, k);
      dict := dict[date := prcp];
      k := k + 1;
    }
    assert rows[..k] == rows;
  }

  lemma PrefixStep<T>(s: seq<T>, k: int)
    requires 0 <= k < |s|
    ensures s[..k + 1] == s[..k] + [s[k]]
  {
  }

  lemma DatesOfAppend(rows: seq<(string, Option<real>)>, date: string, prcp: Option<real>)
    ensures DatesOf(rows + [(date, prcp)]) == DatesOf(rows) + {date}
  {
    var rows' := rows + [(date, prcp)];
    forall d | d in DatesOf(rows)
      ensures d in DatesOf(rows')
    {
      var k :| 0 <= k < |rows| && rows[k].0 == d;
      assert rows'[k] == rows[k];
    }
    forall d | d in DatesOf(rows') && d != date
      ensures d in DatesOf(rows)
    {
      var k :| 0 <= k < |rows'| && rows'[k].0 == d;
      assert rows[k] == rows'[k];
    }
    assert rows'[|rows|].0 == date;
  }

  lemma LastWriteWinsStep(rows: seq<(string, Option<real>)>, dict: map<string, Option<real>>, date: string, prcp: Option<real>)
    requires LastWriteWins(rows, dict)
    ensures LastWriteWins(rows + [(date, prcp)], dict[date := prcp])
  {
    var rows', dict' := rows + [(date, prcp)], dict[date := prcp];
    DatesOfAppend(rows, date, prcp);
    forall i | 0 <= i < |rows| && IsLastOfDate(rows', i)
      ensures rows'[i].0 in dict' && dict'[rows'[i].0] == rows'[i].1
    {
      assert rows'[|rows|].0 != rows'[i].0;
      assert rows'[i] == rows[i];
      assert IsLastOfDate(rows, i) by {
        assert forall j :: i < j < |rows| ==> rows'[j] == rows[j];
      }
    }
  }

  /** `precipitation()`: the trailing window, the rows on or after its start
      by ascending date, folded into a date-to-precipitation dictionary. */
  method Precipitation(db: Database) returns (r: Result<map<string, Option<real>>, Error>)
    ensures TrailingWindowStart(db.measurements).Failure? ==>
      r == Failure(TrailingWindowStart(db.measurements).error)
    ensures TrailingWindowStart(db.measurements).Success? ==> r.Success?
    ensures r.Success? ==>
      var start := TrailingWindowStart(db.measurements).value;
      && r.value.Keys == (set m | m in db.measurements && AtOrBefore(start, m.date) :: Iso(m.date))
      && LastWriteWins(PrecipitationQuery(db.measurements, start), r.value)
  {
    var window := TrailingWindowStart(db.measurements);
    if window.Failure? {
      return Failure(window.error);
    }
    var rows := PrecipitationQuery(db.measurements, window.value);
    var dict := PrecipitationDict(rows);
    PrecipitationKeys(db.measurements, window.value);
    return Success(dict);
  }

  /** The dates of the precipitation rows are the distinct dates of the
      measurements on or after `start`. */
  lemma PrecipitationKeys(ms: seq<Measurement>, start: Date)
    ensures DatesOf(PrecipitationQuery(ms, start))
      == (set m | m in ms && AtOrBefore(start, m.date) :: Iso(m.date))
  {
    var rows := PrecipitationQuery(ms, start);
    var want := set m | m in ms && AtOrBefore(start, m.date) :: Iso(m.date);
    forall d | d in DatesOf(rows)
      ensures d in want
    {
      var i :| 0 <= i < |rows| && rows[i].0 == d;
      assert rows[i] in QualifyingPrecipitation(ms, start) by {
        assert rows[i] in rows;
      }
    }
    forall d | d in want
      ensures d in DatesOf(rows)
    {
      var m :| m in ms && AtOrBefore(start, m.date) && Iso(m.date) == d;
      assert PrecipitationRow(m) in rows by {
        assert PrecipitationRow(m) in QualifyingPrecipitation(ms, start);
      }
      var i :| 0 <= i < |rows| && rows[i] == PrecipitationRow(m);
    }
  }

  /** Every key of the precipitation dictionary is the text of a measurement
      date in the trailing window: no more than 365 days before the latest
      date, and not after it. */
  lemma PrecipitationKeysInWindow(ms: seq<Measurement>, key: string) returns (d: Date)
    requires TrailingWindowStart(ms).Success?
    requires key in DatesOf(PrecipitationQuery(ms, TrailingWindowStart(ms).value))
    ensures Iso(d) == key
    ensures Ordinal(LatestDate(ms).value) - WINDOW_DAYS <= Ordinal(d) <= Ordinal(LatestDate(ms).value)
  {
    var start := TrailingWindowStart(ms).value;
    PrecipitationKeys(ms, start);
    var m :| m in ms && AtOrBefore(start, m.date) && Iso(m.date) == key;
    d := m.date;
    WindowMembership(ms, d);
    OrdinalOrder(LatestDate(ms).value, d);
  }

  /** Three observations, two of them on 2017-01-02 (the first of those with
      NULL precipitation), stored in date order. */
  const EXAMPLE_ROWS: seq<Measurement> := [
    Measurement("S1", Ymd(2017, 1, 1), Some(0.5), Some(70.0)),
    Measurement("S1", Ymd(2017, 1, 2), None, Some(72.0)),
    Measurement("S2", Ymd(2017, 1, 2), Some(0.1), Some(68.0))]

  lemma ExampleWindow()
    ensures TrailingWindowStart(EXAMPLE_ROWS) == Success(Ymd(2016, 1, 3))
  {
    assert LatestDate(EXAMPLE_ROWS) == Some(Ymd(2017, 1, 2));
    assert Ordinal(Ymd(2016, 1, 3)) + WINDOW_DAYS == Ordinal(Ymd(2017, 1, 2));
    WindowStartIs(EXAMPLE_ROWS, Ymd(2016, 1, 3));
  }

  lemma ExampleDates()
    ensures Iso(Ymd(2017, 1, 1)) == "2017-01-01"
    ensures Iso(Ymd(2017, 1, 2)) == "2017-01-02"
  {
    assert Digits(2017, 4) == "2017";
    assert Digits(1, 2) == "01" && Digits(2, 2) == "02";
  }

  lemma ExampleRows()
    ensures PrecipitationRows(EXAMPLE_ROWS)
         == [("2017-01-01", Some(0.5)), ("2017-01-02", None), ("2017-01-02", Some(0.1))]
  {
    var ms := EXAMPLE_ROWS;
    ExampleDates();
    assert PrecipitationRow(ms[0]) == ("2017-01-01", Some(0.5));
    assert PrecipitationRow(ms[1]) == ("2017-01-02", None);
    assert PrecipitationRow(ms[2]) == ("2017-01-02", Some(0.1));
  }

  /** The query keeps the storage order of the two 2017-01-02 rows. */
  lemma ExampleQuery()
    ensures PrecipitationQuery(EXAMPLE_ROWS, Ymd(2016, 1, 3))
         == [("2017-01-01", Some(0.5)), ("2017-01-02", None), ("2017-01-02", Some(0.1))]
  {
    var ms, start := EXAMPLE_ROWS, Ymd(2016, 1, 3);
    assert SortedByDate(ms);
    assert forall m :: m in ms ==> AtOrBefore(start, m.date);
    PrecipitationQueryInOrder(ms, start);
    ExampleRows();
  }

  /** A dictionary built from the example's rows keeps both dates, and for
      2017-01-02 the value of the later row: the NULL is overwritten. */
  lemma ExampleDict(dict: map<string, Option<real>>)
    requires LastWriteWins([("2017-01-01", Some(0.5)), ("2017-01-02", None), ("2017-01-02", Some(0.1))], dict)
    ensures dict == map["2017-01-01" := Some(0.5), "2017-01-02" := Some(0.1)]
  {
    var rows := [("2017-01-01", Some(0.5)), ("2017-01-02", None), ("2017-01-02", Some(0.1))];
    assert IsLastOfDate(rows, 0) && IsLastOfDate(rows, 2);
    assert DatesOf(rows) == {"2017-01-01", "2017-01-02"};
  }

  /** The precipitation route on the example table answers
      `{"2017-01-01": 0.5, "2017-01-02": 0.1}`. */
  method PrecipitationExample() returns (r: Result<map<string, Option<real>>, Error>)
    ensures r == Success(map["2017-01-01" := Some(0.5), "2017-01-02" := Some(0.1)])
  {
    r := Precipitation(Database(EXAMPLE_ROWS, []));
    ExampleWindow();
    ExampleQuery();
    ExampleDict(r.value);
  }

  // ---------------------------------------------------------------------------
  // /api/v1.0/stations
  // ---------------------------------------------------------------------------

  /** `stations()`: one `{id, station, name}` record per row of the station
      table, in table order, taken from positions 0, 1 and 2 of the row. */
  method Stations(db: Database) returns (list: seq<StationRecord>)
    ensures |list| == |db.stations|
    ensures forall i :: 0 <= i < |list| ==>
      list[i] == StationRecord(db.stations[i].id, db.stations[i].station, db.stations[i].name)
  {
    var rows := StationQuery(db.stations);
    list := [];
    for k := 0 to |rows|
      invariant |list| == k
      invariant forall i :: 0 <= i < k ==> list[i] == StationRecord(rows[i].0, rows[i].1, rows[i].2)
    {
      var stat := rows[k];
      var record := StationRecord(stat.0, stat.1, stat.2);
      list := list + [record];
    }
  }

  // ---------------------------------------------------------------------------
  // /api/v1.0/tobs
  // ---------------------------------------------------------------------------

  /** The loop of the temperature listing: each result row is unpacked into
      `date, tobs`, which needs exactly two columns (otherwise ValueError),
      and becomes a `{date, tobs}` record. */
  method UnpackDateTobs(rows: seq<seq<Column>>) returns (r: Result<seq<TobsRecord>, Error>)
    ensures r.Success? <==> forall i :: 0 <= i < |rows| ==> |rows[i]| == 2
    ensures r.Failure? ==> r.error == UnpackMismatch
    ensures r.Success? ==> |r.value| == |rows|
    ensures r.Success? ==> forall i :: 0 <= i < |rows| ==> r.value[i] == TobsRecord(rows[i][0], rows[i][1])
  {
    var values: seq<TobsRecord> := [];
    for k := 0 to |rows|
      invariant |values| == k
      invariant forall i :: 0 <= i < k ==> |rows[i]| == 2 && values[i] == TobsRecord(rows[i][0], rows[i][1])
    {
      var row := rows[k];
      if |row| != 2 {
        return Failure(UnpackMismatch);
      }
      var date, tobs := row[0], row[1];
      values := values + [TobsRecord(date, tobs)];
    }
    return Success(values);
  }

  /** `tobs()` as written: it computes the trailing window and never uses it,
      selects only the `tobs` column of the hard-coded station's rows from
      the hard-coded date, and then unpacks each row into two names, so it
      fails on the first row it gets. */
  method Tobs(db: Database) returns (r: Result<seq<TobsRecord>, Error>)
    ensures TrailingWindowStart(db.measurements).Failure? ==>
      r == Failure(TrailingWindowStart(db.measurements).error)
    ensures TrailingWindowStart(db.measurements).Success? ==>
      (r.Success? <==> Where(db.measurements, TOBS_FILTER) == [])
    ensures TrailingWindowStart(db.measurements).Success? && r.Failure? ==> r.error == UnpackMismatch
    ensures r.Success? ==> r.value == []
  {
    var window := TrailingWindowStart(db.measurements);
    if window.Failure? {
      return Failure(window.error);
    }
    var rows := TobsOnlyQuery(db.measurements, TOBS_FILTER);
    r := UnpackDateTobs(rows);
    if rows != [] {
      assert |rows[0]| == 1;
    }
  }

  /** A snapshot on which `Tobs` fails: one observation of the hard-coded
      station, on or after the hard-coded date and late enough for the
      window not to overflow. */
  lemma TobsFailsOnOneRow(m: Measurement)
    requires m.station == TOBS_STATION
    requires AtOrBefore(Ymd(2016, 8, 23), m.date) && Ordinal(m.date) > WINDOW_DAYS
    ensures TrailingWindowStart([m]).Success?
    ensures Where([m], TOBS_FILTER) == [m]
    ensures forall row :: row in TobsOnlyQuery([m], TOBS_FILTER) ==> |row| != 2
  {
    assert LatestDate([m]) == Some(m.date);
    HardCodedStartText(m.date);
    WhereAll([m], TOBS_FILTER);
  }

  /** The route as written answers such a snapshot with ValueError. */
  method TobsOnOneRow(m: Measurement) returns (r: Result<seq<TobsRecord>, Error>)
    requires m.station == TOBS_STATION
    requires AtOrBefore(Ymd(2016, 8, 23), m.date) && Ordinal(m.date) > WINDOW_DAYS
    ensures r == Failure(UnpackMismatch)
  {
    TobsFailsOnOneRow(m);
    r := Tobs(Database([m], []));
  }

  /** `tobs()` with the query selecting both `date` and `tobs`, as the loop
      expects: one `{date, tobs}` record per row of the hard-coded station
      on or after the hard-coded date, in table order. The computed window
      still decides only whether the handler fails. */
  method TobsCorrected(db: Database) returns (r: Result<seq<TobsRecord>, Error>)
    ensures TrailingWindowStart(db.measurements).Failure? ==>
      r == Failure(TrailingWindowStart(db.measurements).error)
    ensures TrailingWindowStart(db.measurements).Success? ==> r.Success?
    ensures r.Success? ==>
      var w := Where(db.measurements, TOBS_FILTER);
      && |r.value| == |w|
      && forall i :: 0 <= i < |w| ==>
           && r.value[i] == TobsRecord(DateColumn(Iso(w[i].date)), TobsColumn(w[i].tobs))
           && w[i] in db.measurements
           && w[i].station == TOBS_STATION
           && AtOrBefore(Ymd(2016, 8, 23), w[i].date)
  {
    var window := TrailingWindowStart(db.measurements);
    if window.Failure? {
      return Failure(window.error);
    }
    var w := Where(db.measurements, TOBS_FILTER);
    var rows := DateTobsQuery(db.measurements, TOBS_FILTER);
    r := UnpackDateTobs(rows);
    forall i | 0 <= i < |w|
      ensures w[i] in db.measurements && w[i].station == TOBS_STATION && AtOrBefore(Ymd(2016, 8, 23), w[i].date)
    {
      assert w[i] in w && Holds(TOBS_FILTER, w[i]);
      HardCodedStartText(w[i].date);
    }
  }

  // ---------------------------------------------------------------------------
  // /api/v1.0/<start> and /api/v1.0/<start>/<end>
  // ---------------------------------------------------------------------------

  /** The loop shared by both aggregate handlers: `{TMIN, TAVG, TMAX}` from
      each `(min, avg, max)` result row. */
  method Summaries(rows: seq<(Option<real>, Option<real>, Option<real>)>) returns (list: seq<TemperatureSummary>)
    ensures |list| == |rows|
    ensures forall i :: 0 <= i < |rows| ==> list[i] == TemperatureSummary(rows[i].0, rows[i].1, rows[i].2)
  {
    list := [];
    for k := 0 to |rows|
      invariant |list| == k
      invariant forall i :: 0 <= i < k ==> list[i] == TemperatureSummary(rows[i].0, rows[i].1, rows[i].2)
    {
      var (min, avg, max) := rows[k];
      list := list + [TemperatureSummary(min, avg, max)];
    }
  }

  function Summary(row: (Option<real>, Option<real>, Option<real>)): TemperatureSummary {
    TemperatureSummary(row.0, row.1, row.2)
  }

  /** `start_date(start)`: a one-element list with the minimum, average and
      maximum temperature over every row dated on or after `start`. */
  method StartDate(db: Database, start: string) returns (list: seq<TemperatureSummary>)
    ensures |list| == 1
    ensures list[0] == Summary(TobsAggregate(Where(db.measurements, DateFrom(start))))
    ensures list[0].tavg.Some? ==>
      var w := Where(db.measurements, DateFrom(start));
      TobsCount(w) > 0 && list[0].tavg.value == TobsSum(w) / TobsCount(w) as real
    ensures list[0].tmin.None? <==> forall m :: m in db.measurements && TextLe(start, Iso(m.date)) ==> m.tobs.None?
    ensures list[0].tavg.Some? ==> list[0].tmin.value <= list[0].tavg.value <= list[0].tmax.value
  {
    var rows := AggregateQuery(db.measurements, DateFrom(start));
    list := Summaries(rows);
  }

  /** `start_end_date(start, end)`: the same over the rows with
      `start <= date <= end`; nothing checks that `start <= end`. */
  method StartEndDate(db: Database, start: string, end: string) returns (list: seq<TemperatureSummary>)
    ensures |list| == 1
    ensures list[0] == Summary(TobsAggregate(Where(db.measurements, DateBetween(start, end))))
    ensures list[0].tavg.Some? ==>
      var w := Where(db.measurements, DateBetween(start, end));
      TobsCount(w) > 0 && list[0].tavg.value == TobsSum(w) / TobsCount(w) as real
    ensures list[0].tmin.None? <==>
      forall m :: m in db.measurements && TextLe(start, Iso(m.date)) && TextLe(Iso(m.date), end) ==> m.tobs.None?
    ensures list[0].tavg.Some? ==> list[0].tmin.value <= list[0].tavg.value <= list[0].tmax.value
  {
    var rows := AggregateQuery(db.measurements, DateBetween(start, end));
    list := Summaries(rows);
  }

  /** An end date before the start date selects no row, so all three values
      are NULL. */
  lemma ReversedRangeIsAllNull(ms: seq<Measurement>, start: string, end: string)
    requires !TextLe(start, end)
    ensures TobsAggregate(Where(ms, DateBetween(start, end))) == (None, None, None)
  {
    var w := Where(ms, DateBetween(start, end));
    if w != [] {
      assert w[0] in w;
      TextLeTransitive(start, Iso(w[0].date), end);
    }
  }

  /** With the end at or after the latest measurement date, the closed range
      gives the same aggregates as the open one. */
  lemma ClosedRangeAtLatestIsOpenRange(ms: seq<Measurement>, start: string, end: string)
    requires LatestDate(ms).Some? ==> TextLe(Iso(LatestDate(ms).value), end)
    ensures TobsAggregate(Where(ms, DateBetween(start, end))) == TobsAggregate(Where(ms, DateFrom(start)))
  {
    forall m | m in ms
      ensures Holds(DateBetween(start, end), m) <==> Holds(DateFrom(start), m)
    {
      var latest := LatestDate(ms).value;
      IsoOrder(m.date, latest);
      TextLeTransitive(Iso(m.date), Iso(latest), end);
    }
    WhereAgree(ms, DateBetween(start, end), DateFrom(start));
  }

  /** A start of just a year, `/api/v1.0/2017`, is not rejected: as text it
      selects every row dated in 2017 or later. */
  lemma YearOnlyStart(m: Measurement)
    ensures Holds(DateFrom("2017"), m) <==> m.date.year >= 2017
  {
    assert Digits(2017, 4) == "2017";
    YearPrefixStart(2017, m.date);
  }
}
