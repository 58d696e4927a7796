/** The two tables of the climate database, held as a fixed snapshot, and the
    SQL queries the route handlers issue against them, each as a function
    over the table's rows in storage order. */
module Store {
  import opened Wrappers
  import opened Calendar
  import opened IsoText

  /** A row of the `measurement` table: station code, observation date,
      precipitation and observed temperature, either of which may be NULL. */
  datatype Measurement = Measurement(station: string, date: Date, prcp: Option<real>, tobs: Option<real>)

  /** A row of the `station` table. */
  datatype StationRow = StationRow(id: int, station: string, name: string)

  /** The read-only snapshot; each sequence is a table in storage order. */
  datatype Database = Database(measurements: seq<Measurement>, stations: seq<StationRow>)

  /** The WHERE clauses the handlers put on the `measurement` table. The
      `date` column is TEXT, so each bound is compared as text. */
  datatype Condition =
    | DateFrom(start: string)                       // date >= start
    | DateBetween(start: string, end: string)       // date >= start AND date <= end
    | StationDateFrom(start: string, code: string)  // date >= start AND station == code

  /** Whether row `m` meets `c`. Every condition has a lower date bound;
      only `DateBetween` has an upper one, and only `StationDateFrom` looks
      at the station. */
  function Holds(c: Condition, m: Measurement): (r: bool)
    ensures r ==> TextLe(c.start, Iso(m.date))
    ensures c.DateBetween? ==> (r <==> TextLe(c.start, Iso(m.date)) && TextLe(Iso(m.date), c.end))
    ensures c.StationDateFrom? && m.station != c.code ==> !r
  {
    match c
    case DateFrom(s) => TextLe(s, Iso(m.date))
    case DateBetween(s, e) => TextLe(s, Iso(m.date)) && TextLe(Iso(m.date), e)
    case StationDateFrom(s, code) => TextLe(s, Iso(m.date)) && m.station == code
  }

  /** A bound that is itself the text of a date, as a Python `date` bound
      to the query is, selects the rows dated on or after that date. */
  lemma DateFromIso(start: Date, m: Measurement)
    ensures Holds(DateFrom(Iso(start)), m) <==> AtOrBefore(start, m.date)
  {
    IsoOrder(start, m.date);
  }

  /** The rows satisfying `c`, in storage order. */
  function Where(ms: seq<Measurement>, c: Condition): (r: seq<Measurement>)
    ensures forall m :: m in r <==> m in ms && Holds(c, m)
  {
    if ms == [] then []
    else
      assert ms == [ms[0]] + ms[1..];
      var rest := Where(ms[1..], c);
      if Holds(c, ms[0]) then [ms[0]] + rest else rest
  }

  /** Each row satisfying `c` is kept as often as it occurs, and no other row
      is kept. */
  lemma {:induction false} WhereCounts(ms: seq<Measurement>, c: Condition)
    ensures forall m :: multiset(Where(ms, c))[m] == if Holds(c, m) then multiset(ms)[m] else 0
  {
    if ms != [] {
      assert ms == [ms[0]] + ms[1..];
      WhereCounts(ms[1..], c);
    }
  }

  /** Filtering a concatenation filters each part: together with the
      one-row case this says `Where` keeps the qualifying rows in order. */
  lemma {:induction false} WhereAppend(xs: seq<Measurement>, ys: seq<Measurement>, c: Condition)
    ensures Where(xs + ys, c) == Where(xs, c) + Where(ys, c)
  {
    if xs == [] {
      assert xs + ys == ys;
    } else {
      assert (xs + ys)[1..] == xs[1..] + ys;
      WhereAppend(xs[1..], ys, c);
    }
  }

  /** Two conditions that agree on every row of the table select the same
      rows. */
  lemma {:induction false} WhereAgree(ms: seq<Measurement>, c: Condition, d: Condition)
    requires forall m :: m in ms ==> (Holds(c, m) <==> Holds(d, m))
    ensures Where(ms, c) == Where(ms, d)
  {
    if ms != [] {
      assert forall m :: m in ms[1..] ==> m in ms;
      WhereAgree(ms[1..], c, d);
    }
  }

  /** A condition every row meets selects the whole table, in storage order. */
  lemma {:induction false} WhereAll(ms: seq<Measurement>, c: Condition)
    requires forall m :: m in ms ==> Holds(c, m)
    ensures Where(ms, c) == ms
  {
    if ms != [] {
      var head, tail := ms[0], ms[1..];
      assert ms == [head] + tail;
      assert head in ms;
      assert forall m :: m in tail ==> m in ms;
      WhereAll(tail, c);
    }
  }

  /** `SELECT date ... ORDER BY date DESC` followed by `.first()`: the date of
      the first row in descending order, which is the greatest date of the
      table; `None` when the table is empty. */
  function LatestDate(ms: seq<Measurement>): (r: Option<Date>)
    ensures r.None? <==> ms == []
    ensures r.Some? ==> exists m :: m in ms && m.date == r.value
    ensures r.Some? ==> forall m :: m in ms ==> AtOrBefore(m.date, r.value)
  {
    if ms == [] then None
    else
      assert forall m :: m in ms <==> m == ms[0] || m in ms[1..];
      match LatestDate(ms[1..])
      case None => Some(ms[0].date)
      case Some(later) => Some(if Before(ms[0].date, later) then later else ms[0].date)
  }

  predicate SortedByDate(s: seq<Measurement>) {
    forall i, j :: 0 <= i < j < |s| ==> AtOrBefore(s[i].date, s[j].date)
  }

  /** A row that is not later than any row of a sorted sequence can be put
      in front of it. */
  lemma SortedPrepend(x: Measurement, s: seq<Measurement>)
    requires SortedByDate(s)
    requires forall y :: y in s ==> AtOrBefore(x.date, y.date)
    ensures SortedByDate([x] + s)
  {
    forall i, j | 0 <= i < j < |[x] + s|
      ensures AtOrBefore(([x] + s)[i].date, ([x] + s)[j].date)
    {
      if i > 0 {
        assert ([x] + s)[i] == s[i - 1] && ([x] + s)[j] == s[j - 1];
      } else {
        assert ([x] + s)[j] == s[j - 1];
        assert s[j - 1] in s;
      }
    }
  }

  /** Places `m` before the first row that is not earlier than it. */
  function InsertByDate(m: Measurement, s: seq<Measurement>): (r: seq<Measurement>)
    requires SortedByDate(s)
    ensures SortedByDate(r)
    ensures multiset(r) == multiset(s) + multiset{m}
  {
    if s == [] then [m]
    else if AtOrBefore(m.date, s[0].date) then
      assert forall y :: y in s ==> AtOrBefore(s[0].date, y.date);
      SortedPrepend(m, s);
      [m] + s
    else
      assert s == [s[0]] + s[1..];
      var rest := InsertByDate(m, s[1..]);
      assert forall y :: y in rest ==> AtOrBefore(s[0].date, y.date) by {
        forall y | y in rest
          ensures AtOrBefore(s[0].date, y.date)
        {
          assert y in multiset(rest);
          assert y == m || y in multiset(s[1..]);
          if y != m {
            var k :| 0 <= k < |s[1..]| && s[1..][k] == y;
            assert s[k + 1] == y;
          }
        }
      }
      SortedPrepend(s[0], rest);
      [s[0]] + rest
  }

  /** `ORDER BY date` (ascending). SQLite leaves the order of rows with equal
      dates unspecified; this model keeps them in storage order. */
  function OrderByDate(s: seq<Measurement>): (r: seq<Measurement>)
    ensures SortedByDate(r)
    ensures multiset(r) == multiset(s)
  {
    if s == [] then []
    else
      assert s == [s[0]] + s[1..];
      InsertByDate(s[0], OrderByDate(s[1..]))
  }

  /** The sort is stable: rows already in date order keep their storage
      order, rows of equal date included. */
  lemma {:induction false} OrderByDateSorted(s: seq<Measurement>)
    requires SortedByDate(s)
    ensures OrderByDate(s) == s
  {
    if s != [] {
      var head, tail := s[0], s[1..];
      assert s == [head] + tail;
      assert SortedByDate(tail) by {
        forall i, j | 0 <= i < j < |tail|
          ensures AtOrBefore(tail[i].date, tail[j].date)
        {
          assert tail[i] == s[i + 1] && tail[j] == s[j + 1];
        }
      }
      OrderByDateSorted(tail);
      if tail != [] {
        assert AtOrBefore(head.date, tail[0].date) by {
          assert tail[0] == s[1];
        }
      }
    }
  }


  /** A permutation of the rows satisfying `c` holds exactly those rows. */
  lemma PermutationOfWhere(ms: seq<Measurement>, c: Condition, s: seq<Measurement>)
    requires multiset(s) == multiset(Where(ms, c))
    ensures |s| == |Where(ms, c)|
    ensures forall m :: m in s <==> m in ms && Holds(c, m)
  {
    assert |multiset(s)| == |multiset(Where(ms, c))|;
    forall m
      ensures m in s <==> m in ms && Holds(c, m)
    {
      calc {
        m in s;
        m in multiset(s);
        m in multiset(Where(ms, c));
        m in Where(ms, c);
      }
    }
  }

  function PrecipitationRow(m: Measurement): (string, Option<real>) {
    (Iso(m.date), m.prcp)
  }

  function PrecipitationRows(s: seq<Measurement>): (rows: seq<(string, Option<real>)>)
    ensures |rows| == |s|
    ensures forall i :: 0 <= i < |s| ==> rows[i] == PrecipitationRow(s[i])
  {
    seq(|s|, i requires 0 <= i < |s| => PrecipitationRow(s[i]))
  }

  lemma PrecipitationRowsCons(x: Measurement, s: seq<Measurement>)
    ensures PrecipitationRows([x] + s) == [PrecipitationRow(x)] + PrecipitationRows(s)
  {
    assert forall i :: 0 < i < |s| + 1 ==> ([x] + s)[i] == s[i - 1];
  }

  /** Inserting a row into the sorted rows adds exactly its `(date, prcp)`
      pair to the pairs. */
  lemma {:induction false} InsertByDateRows(m: Measurement, s: seq<Measurement>)
    requires SortedByDate(s)
    ensures multiset(PrecipitationRows(InsertByDate(m, s)))
         == multiset(PrecipitationRows(s)) + multiset{PrecipitationRow(m)}
  {
    if s == [] {
      assert PrecipitationRows([m]) == [PrecipitationRow(m)];
    } else if AtOrBefore(m.date, s[0].date) {
      PrecipitationRowsCons(m, s);
    } else {
      var head, tail := s[0], s[1..];
      assert s == [head] + tail;
      assert SortedByDate(tail) by {
        forall i, j | 0 <= i < j < |tail|
          ensures AtOrBefore(tail[i].date, tail[j].date)
        {
          assert tail[i] == s[i + 1] && tail[j] == s[j + 1];
        }
      }
      InsertByDateRows(m, tail);
      PrecipitationRowsCons(head, InsertByDate(m, tail));
      PrecipitationRowsCons(head, tail);
    }
  }

  /** Sorting keeps the `(date, prcp)` pairs of the rows, each as often as
      it occurs. */
  lemma {:induction false} OrderByDateRows(s: seq<Measurement>)
    ensures multiset(PrecipitationRows(OrderByDate(s))) == multiset(PrecipitationRows(s))
  {
    if s != [] {
      var head, tail := s[0], s[1..];
      assert s == [head] + tail;
      OrderByDateRows(tail);
      InsertByDateRows(head, OrderByDate(tail));
      PrecipitationRowsCons(head, tail);
    }
  }

  /** The (date, prcp) pairs of the measurements dated on or after `start`. */
  function QualifyingPrecipitation(ms: seq<Measurement>, start: Date): set<(string, Option<real>)> {
    set m | m in ms && AtOrBefore(start, m.date) :: PrecipitationRow(m)
  }

  /** `SELECT date, prcp FROM measurement WHERE date >= start ORDER BY date`
      with `start` a Python date: one (date, prcp) row per measurement dated
      on or after `start`, NULL precipitation included, in ascending order. */
  function PrecipitationQuery(ms: seq<Measurement>, start: Date): (rows: seq<(string, Option<real>)>)
    ensures |rows| == |Where(ms, DateFrom(Iso(start)))|
    ensures forall i, j :: 0 <= i < j < |rows| ==> TextLe(rows[i].0, rows[j].0)
    ensures forall row :: row in rows <==> row in QualifyingPrecipitation(ms, start)
    ensures multiset(rows) == multiset(PrecipitationRows(Where(ms, DateFrom(Iso(start)))))
  {
    var sorted := OrderByDate(Where(ms, DateFrom(Iso(start))));
    OrderByDateRows(Where(ms, DateFrom(Iso(start))));
    PermutationOfWhere(ms, DateFrom(Iso(start)), sorted);
    PrecipitationRowsOfSorted(ms, start, sorted);
    PrecipitationRowsSorted(sorted);
    PrecipitationRows(sorted)
  }

  /** A table already in date order whose rows all lie on or after `start`
      comes back row for row, in storage order. */
  lemma PrecipitationQueryInOrder(ms: seq<Measurement>, start: Date)
    requires SortedByDate(ms)
    requires forall m :: m in ms ==> AtOrBefore(start, m.date)
    ensures PrecipitationQuery(ms, start) == PrecipitationRows(ms)
  {
    forall m | m in ms
      ensures Holds(DateFrom(Iso(start)), m)
    {
      DateFromIso(start, m);
    }
    WhereAll(ms, DateFrom(Iso(start)));
    OrderByDateSorted(ms);
  }

  lemma PrecipitationRowsSorted(sorted: seq<Measurement>)
    requires SortedByDate(sorted)
    ensures var rows := PrecipitationRows(sorted);
      forall i, j :: 0 <= i < j < |rows| ==> TextLe(rows[i].0, rows[j].0)
  {
    forall i, j | 0 <= i < j < |sorted|
      ensures TextLe(Iso(sorted[i].date), Iso(sorted[j].date))
    {
      IsoOrder(sorted[i].date, sorted[j].date);
    }
  }

  lemma PrecipitationRowsOfSorted(ms: seq<Measurement>, start: Date, sorted: seq<Measurement>)
    requires forall x :: x in sorted <==> x in ms && Holds(DateFrom(Iso(start)), x)
    ensures forall row :: row in PrecipitationRows(sorted) <==> row in QualifyingPrecipitation(ms, start)
  {
    var rows := PrecipitationRows(sorted);
    forall row
      ensures row in rows <==> row in QualifyingPrecipitation(ms, start)
    {
      if row in rows {
        var i :| 0 <= i < |rows| && rows[i] == row;
        assert sorted[i] in sorted;
        DateFromIso(start, sorted[i]);
      }
      if row in QualifyingPrecipitation(ms, start) {
        var m :| m in ms && AtOrBefore(start, m.date) && row == PrecipitationRow(m);
        DateFromIso(start, m);
        var i :| 0 <= i < |sorted| && sorted[i] == m;
        assert rows[i] == row;
      }
    }
  }

  /** `SELECT id, station, name FROM station`, in storage order: the row at
      position `i` holds the three columns of the `i`-th station. */
  function StationQuery(ss: seq<StationRow>): (rows: seq<(int, string, string)>)
    ensures |rows| == |ss|
    ensures forall i :: 0 <= i < |ss| ==> rows[i] == (ss[i].id, ss[i].station, ss[i].name)
  {
    seq(|ss|, i requires 0 <= i < |ss| => (ss[i].id, ss[i].station, ss[i].name))
  }

  /** A column value of a result row of the temperature listing query. */
  datatype Column = DateColumn(date: string) | TobsColumn(tobs: Option<real>)

  /** `SELECT tobs FROM measurement WHERE <c>`: each result row holds the one
      selected column. */
  function TobsOnlyQuery(ms: seq<Measurement>, c: Condition): (rows: seq<seq<Column>>)
    ensures |rows| == |Where(ms, c)|
    ensures forall i :: 0 <= i < |rows| ==> rows[i] == [TobsColumn(Where(ms, c)[i].tobs)]
  {
    var w := Where(ms, c);
    seq(|w|, i requires 0 <= i < |w| => [TobsColumn(w[i].tobs)])
  }

  /** `SELECT date, tobs FROM measurement WHERE <c>`. */
  function DateTobsQuery(ms: seq<Measurement>, c: Condition): (rows: seq<seq<Column>>)
    ensures |rows| == |Where(ms, c)|
    ensures forall i :: 0 <= i < |rows| ==>
      rows[i] == [DateColumn(Iso(Where(ms, c)[i].date)), TobsColumn(Where(ms, c)[i].tobs)]
  {
    var w := Where(ms, c);
    seq(|w|, i requires 0 <= i < |w| => [DateColumn(Iso(w[i].date)), TobsColumn(w[i].tobs)])
  }

  /** SQL's `count(tobs)`: the number of rows whose temperature is not NULL. */
  function TobsCount(ms: seq<Measurement>): nat {
    if ms == [] then 0
    else (if ms[0].tobs.Some? then 1 else 0) + TobsCount(ms[1..])
  }

  /** SQL's `total(tobs)`: the sum of the temperatures that are not NULL, one
      term per row. */
  function TobsSum(ms: seq<Measurement>): real {
    if ms == [] then 0.0
    else (if ms[0].tobs.Some? then ms[0].tobs.value else 0.0) + TobsSum(ms[1..])
  }

  /** The non-NULL `tobs` values of the rows, in order: what SQL's aggregate
      functions range over. Each row with a temperature contributes one
      value, so there are as many values as such rows, and they add up to
      those rows' temperatures. */
  function TobsValues(ms: seq<Measurement>): (vs: seq<real>)
    ensures forall m :: m in ms && m.tobs.Some? ==> m.tobs.value in vs
    ensures forall v :: v in vs ==> exists m :: m in ms && m.tobs == Some(v)
    ensures vs == [] <==> forall m :: m in ms ==> m.tobs.None?
    ensures |vs| == TobsCount(ms)
    ensures Sum(vs) == TobsSum(ms)
  {
    if ms == [] then []
    else
      assert forall m :: m in ms <==> m == ms[0] || m in ms[1..];
      var rest := TobsValues(ms[1..]);
      if ms[0].tobs.Some? then
        var vs := [ms[0].tobs.value] + rest;
        assert vs[0] == ms[0].tobs.value && vs[1..] == rest;
        vs
      else rest
  }

  function Minimum(vs: seq<real>): (r: real)
    requires vs != []
    ensures r in vs
    ensures forall v :: v in vs ==> r <= v
  {
    if |vs| == 1 then vs[0]
    else
      assert forall v :: v in vs <==> v == vs[0] || v in vs[1..];
      var rest := Minimum(vs[1..]);
      if vs[0] <= rest then vs[0] else rest
  }

  function Maximum(vs: seq<real>): (r: real)
    requires vs != []
    ensures r in vs
    ensures forall v :: v in vs ==> v <= r
  {
    if |vs| == 1 then vs[0]
    else
      assert forall v :: v in vs <==> v == vs[0] || v in vs[1..];
      var rest := Maximum(vs[1..]);
      if rest <= vs[0] then vs[0] else rest
  }

  function Sum(vs: seq<real>): real {
    if vs == [] then 0.0 else vs[0] + Sum(vs[1..])
  }

  /** A sum of `n` values between `lo` and `hi` lies between `n * lo` and
      `n * hi`. */
  lemma {:induction false} SumBetween(vs: seq<real>, lo: real, hi: real)
    requires forall v :: v in vs ==> lo <= v <= hi
    ensures |vs| as real * lo <= Sum(vs) <= |vs| as real * hi
  {
    if vs != [] {
      var n := |vs[1..]| as real;
      assert forall v :: v in vs[1..] ==> v in vs;
      SumBetween(vs[1..], lo, hi);
      assert vs[0] in vs;
      assert |vs| as real * lo == n * lo + lo;
      assert |vs| as real * hi == n * hi + hi;
    }
  }

  lemma NonNegativeFactor(x: real, n: real)
    requires n > 0.0 && x * n >= 0.0
    ensures x >= 0.0
  {
  }

  lemma QuotientBetween(s: real, n: real, lo: real, hi: real)
    requires n > 0.0
    requires n * lo <= s <= n * hi
    ensures lo <= s / n <= hi
  {
    var q := s / n;
    assert q * n == s;
    assert (q - lo) * n == s - n * lo;
    assert (hi - q) * n == n * hi - s;
    NonNegativeFactor(q - lo, n);
    NonNegativeFactor(hi - q, n);
  }

  /** `SELECT min(tobs), avg(tobs), max(tobs)` over the given rows. As in SQL,
      NULL temperatures are skipped and each aggregate is NULL when no
      temperature remains; the average is exact (sum / count). */
  function TobsAggregate(ms: seq<Measurement>): (row: (Option<real>, Option<real>, Option<real>))
    ensures row.0.None? <==> forall m :: m in ms ==> m.tobs.None?
    ensures row.1.None? <==> forall m :: m in ms ==> m.tobs.None?
    ensures row.2.None? <==> forall m :: m in ms ==> m.tobs.None?
    ensures row.0.Some? ==> exists m :: m in ms && m.tobs == row.0
    ensures row.0.Some? ==> forall m :: m in ms && m.tobs.Some? ==> row.0.value <= m.tobs.value
    ensures row.2.Some? ==> exists m :: m in ms && m.tobs == row.2
    ensures row.2.Some? ==> forall m :: m in ms && m.tobs.Some? ==> m.tobs.value <= row.2.value
    ensures row.1.Some? ==> row.0.value <= row.1.value <= row.2.value
    ensures row.1.Some? ==> TobsCount(ms) > 0 && row.1.value == TobsSum(ms) / TobsCount(ms) as real
  {
    var vs := TobsValues(ms);
    if vs == [] then (None, None, None)
    else
      MeanBetween(vs, Minimum(vs), Maximum(vs));
      ExtremesAttained(ms);
      (Some(Minimum(vs)), Some(Sum(vs) / |vs| as real), Some(Maximum(vs)))
  }

  /** AVG weighs each row: two rows at 70 and one at 80 average 220/3, not
      the 75 of the distinct values. */
  lemma AverageCountsEveryRow(a: Measurement, b: Measurement, c: Measurement)
    requires a.tobs == Some(70.0) && b.tobs == Some(70.0) && c.tobs == Some(80.0)
    ensures TobsAggregate([a, b, c]).1 == Some(220.0 / 3.0)
  {
    var ms := [a, b, c];
    assert ms[1..] == [b, c] && [b, c][1..] == [c] && [c][1..] == [];
    assert TobsCount([c]) == 1 && TobsSum([c]) == 80.0;
    assert TobsCount([b, c]) == 2 && TobsSum([b, c]) == 150.0;
    assert TobsCount(ms) == 3 && TobsSum(ms) == 220.0;
  }

  /** The mean of non-empty values that lie between `lo` and `hi` lies
      between them too. */
  lemma MeanBetween(vs: seq<real>, lo: real, hi: real)
    requires vs != []
    requires forall v :: v in vs ==> lo <= v <= hi
    ensures lo <= Sum(vs) / |vs| as real <= hi
  {
    var n, s := |vs| as real, Sum(vs);
    assert n * lo <= s <= n * hi by {
      SumBetween(vs, lo, hi);
    }
    QuotientBetween(s, n, lo, hi);
  }

  /** The least and the greatest non-NULL temperature are temperatures of
      some rows, and bound every row's temperature. */
  lemma ExtremesAttained(ms: seq<Measurement>)
    requires TobsValues(ms) != []
    ensures exists m :: m in ms && m.tobs == Some(Minimum(TobsValues(ms)))
    ensures exists m :: m in ms && m.tobs == Some(Maximum(TobsValues(ms)))
    ensures forall m :: m in ms && m.tobs.Some? ==>
      Minimum(TobsValues(ms)) <= m.tobs.value <= Maximum(TobsValues(ms))
  {
    var vs := TobsValues(ms);
    assert Minimum(vs) in vs && Maximum(vs) in vs;
  }

  /** An aggregate query without GROUP BY: exactly one result row. */
  function AggregateQuery(ms: seq<Measurement>, c: Condition): (rows: seq<(Option<real>, Option<real>, Option<real>)>)
    ensures |rows| == 1
  {
    [TobsAggregate(Where(ms, c))]
  }
}
