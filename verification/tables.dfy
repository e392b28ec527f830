/**
  The persistent tables the index engine reads and writes, as sequences of rows
  in storage order, with their primary keys and the foreign key to `stocks`.
*/
module Tables {
  import opened Wrappers
  import opened Seqs
  import opened Dates

  type Ticker = string

  /** A row of `stocks`, keyed by ticker. */
  datatype StockMeta = StockMeta(name: string, sector: Option<string>, industry: Option<string>)

  /**
    A row of `daily_stock_data`, keyed by (ticker, date); the columns the
    engine reads. `close_price` is NOT NULL but nothing keeps it positive:
    a close of 0.00 is a value the column holds.
  */
  datatype DailyRow = DailyRow(ticker: Ticker, date: Date, close: real, marketCap: real)

  /** A row of `index_compositions`, keyed by (date, ticker). */
  datatype CompositionRow = CompositionRow(date: Date, ticker: Ticker, weight: real, marketCap: real)

  /** A row of `index_performance`, keyed by date. */
  datatype PerformanceRow = PerformanceRow(date: Date, value: real, dailyReturn: real, cumulativeReturn: real)

  datatype Store = Store(
    stocks: map<Ticker, StockMeta>,
    daily: seq<DailyRow>,
    compositions: seq<CompositionRow>,
    performance: seq<PerformanceRow>)

  function DailyKey(r: DailyRow): (Ticker, Date) { (r.ticker, r.date) }

  function CompositionRowKey(r: CompositionRow): (Date, Ticker) { (r.date, r.ticker) }

  function PerformanceRowKey(r: PerformanceRow): Date { r.date }

  function DailyDate(r: DailyRow): Date { r.date }

  function CompositionDate(r: CompositionRow): Date { r.date }

  /** The date column of the rows dated in `[start, end]`, in storage order. */
  function DatesIn<R>(rows: seq<R>, dateOf: R -> Date, start: Date, end: Date): (r: seq<Date>)
    ensures forall d :: d in r <==> InRange(d, start, end) && exists x :: x in rows && dateOf(x) == d
  {
    if rows == [] then []
    else
      assert rows == [rows[0]] + rows[1..];
      (if InRange(dateOf(rows[0]), start, end) then [dateOf(rows[0])] else []) + DatesIn(rows[1..], dateOf, start, end)
  }

  /** The primary keys of the three tables hold. */
  ghost predicate WellKeyed(s: Store)
  {
    && UniqueBy(s.daily, DailyKey)
    && UniqueBy(s.compositions, CompositionRowKey)
    && UniqueBy(s.performance, PerformanceRowKey)
  }

  /** The foreign keys to `stocks(ticker)` hold. */
  ghost predicate ReferencesStocks(s: Store)
  {
    && (forall r :: r in s.daily ==> r.ticker in s.stocks)
    && (forall r :: r in s.compositions ==> r.ticker in s.stocks)
  }

  /** The integrity constraints the database enforces. */
  ghost predicate Consistent(s: Store)
  {
    WellKeyed(s) && ReferencesStocks(s)
  }

  /** Every close is positive: a hypothesis about the data, which the schema does not enforce. */
  predicate PositiveCloses(daily: seq<DailyRow>)
  {
    forall x :: x in daily ==> x.close > 0.0
  }

  /**
    `INSERT ... ON CONFLICT (key) DO UPDATE`: the row whose key matches is
    overwritten in place; without a match the row is appended.
  */
  function Upsert<R(!new), K(==)>(rows: seq<R>, row: R, key: R -> K): (r: seq<R>)
    ensures row in r
    ensures forall x :: x in rows && key(x) != key(row) ==> x in r
    ensures UniqueBy(rows, key) ==> forall x :: x in r ==> x == row || (x in rows && key(x) != key(row))
    ensures UniqueBy(rows, key) ==> UniqueBy(r, key)
    ensures (forall x :: x in rows ==> key(x) != key(row)) ==> r == rows + [row]
  {
    if rows == [] then [row]
    else
      assert rows == [rows[0]] + rows[1..];
      assert UniqueBy(rows, key) ==> UniqueBy(rows[1..], key) && forall x :: x in rows[1..] ==> key(x) != key(rows[0]) by {
        if UniqueBy(rows, key) { UniqueByTail(rows, key); }
      }
      UpsertAt(rows, row, key)
  }

  /** The recursion of `Upsert`, with the tail's uniqueness facts in scope. */
  function UpsertAt<R(!new), K(==)>(rows: seq<R>, row: R, key: R -> K): (r: seq<R>)
    requires rows != []
    requires UniqueBy(rows, key) ==> UniqueBy(rows[1..], key) && forall x :: x in rows[1..] ==> key(x) != key(rows[0])
    ensures row in r
    ensures forall x :: x in rows && key(x) != key(row) ==> x in r
    ensures UniqueBy(rows, key) ==> forall x :: x in r ==> x == row || (x in rows && key(x) != key(row))
    ensures UniqueBy(rows, key) ==> UniqueBy(r, key)
    ensures (forall x :: x in rows ==> key(x) != key(row)) ==> r == rows + [row]
    decreases rows, 0
  {
    assert rows == [rows[0]] + rows[1..];
    if key(rows[0]) == key(row) then
      assert UniqueBy(rows, key) ==> UniqueBy([row] + rows[1..], key) by {
        if UniqueBy(rows, key) { UniqueByPrepend(row, rows[1..], key); }
      }
      [row] + rows[1..]
    else
      var tail := Upsert(rows[1..], row, key);
      assert UniqueBy(rows, key) ==> UniqueBy([rows[0]] + tail, key) by {
        if UniqueBy(rows, key) { UniqueByPrepend(rows[0], tail, key); }
      }
      [rows[0]] + tail
  }

  /** `SELECT ... FROM index_compositions WHERE date = ?`, in storage order. */
  function RowsOn(rows: seq<CompositionRow>, d: Date): (r: seq<CompositionRow>)
    ensures forall x :: x in r <==> x in rows && x.date == d
  {
    Filter(rows, DatedOn(d))
  }

  function DatedOn(d: Date): CompositionRow -> bool
  {
    (x: CompositionRow) => x.date == d
  }

  lemma RowsOnConcat(a: seq<CompositionRow>, b: seq<CompositionRow>, d: Date)
    ensures RowsOn(a + b, d) == RowsOn(a, d) + RowsOn(b, d)
  {
    FilterConcat(a, b, DatedOn(d));
  }

  lemma RowsOnNone(rows: seq<CompositionRow>, d: Date)
    requires forall x :: x in rows ==> x.date != d
    ensures RowsOn(rows, d) == []
  {
    FilterNone(rows, DatedOn(d));
  }

  lemma RowsOnAll(rows: seq<CompositionRow>, d: Date)
    requires forall x :: x in rows ==> x.date == d
    ensures RowsOn(rows, d) == rows
  {
    FilterAll(rows, DatedOn(d));
  }

  /** `SELECT ... FROM index_performance WHERE date = ?`. */
  function PerformanceOn(rows: seq<PerformanceRow>, d: Date): (r: seq<PerformanceRow>)
    ensures forall x :: x in r <==> x in rows && x.date == d
  {
    Filter(rows, PointDatedOn(d))
  }

  function PointDatedOn(d: Date): PerformanceRow -> bool
  {
    (x: PerformanceRow) => x.date == d
  }

  lemma PerformanceOnConcat(a: seq<PerformanceRow>, b: seq<PerformanceRow>, d: Date)
    ensures PerformanceOn(a + b, d) == PerformanceOn(a, d) + PerformanceOn(b, d)
  {
    FilterConcat(a, b, PointDatedOn(d));
  }

  lemma PerformanceOnNone(rows: seq<PerformanceRow>, d: Date)
    requires forall x :: x in rows ==> x.date != d
    ensures PerformanceOn(rows, d) == []
  {
    FilterNone(rows, PointDatedOn(d));
  }

  lemma PerformanceOnAll(rows: seq<PerformanceRow>, d: Date)
    requires forall x :: x in rows ==> x.date == d
    ensures PerformanceOn(rows, d) == rows
  {
    FilterAll(rows, PointDatedOn(d));
  }

  /** Rows of one date, surrounded by rows of other dates, are exactly what `RowsOn` finds. */
  lemma RowsOnBetween(a: seq<CompositionRow>, b: seq<CompositionRow>, c: seq<CompositionRow>, e: seq<CompositionRow>, d: Date)
    requires forall x :: x in a ==> x.date != d
    requires forall x :: x in b ==> x.date != d
    requires forall x :: x in c ==> x.date == d
    requires forall x :: x in e ==> x.date != d
    ensures RowsOn(a + (b + c) + e, d) == c
  {
    RowsOnNone(a, d);
    RowsOnNone(b, d);
    RowsOnNone(e, d);
    RowsOnAll(c, d);
    RowsOnConcat(a + (b + c), e, d);
    RowsOnConcat(a, b + c, d);
    RowsOnConcat(b, c, d);
    assert RowsOn(a + (b + c) + e, d) == [] + ([] + c) + [];
  }

  /** The ticker column of composition rows. */
  function TickersOf(rows: seq<CompositionRow>): (r: seq<Ticker>)
    ensures |r| == |rows|
    ensures forall k :: 0 <= k < |rows| ==> r[k] == rows[k].ticker
  {
    if rows == [] then [] else [rows[0].ticker] + TickersOf(rows[1..])
  }

  /** A ticker is in the ticker column exactly when some row carries it. */
  lemma TickersOfHolds(rows: seq<CompositionRow>)
    ensures forall t :: t in TickersOf(rows) <==> exists x :: x in rows && x.ticker == t
  {
    var ts := TickersOf(rows);
    forall t | t in ts ensures exists x :: x in rows && x.ticker == t {
      var k :| 0 <= k < |ts| && ts[k] == t;
      assert rows[k] in rows;
    }
    forall x | x in rows ensures x.ticker in ts {
      var k :| 0 <= k < |rows| && rows[k] == x;
      assert ts[k] == x.ticker;
    }
  }

  /** The set of tickers held on `d`. */
  function TickerSet(rows: seq<CompositionRow>, d: Date): (r: set<Ticker>)
    ensures forall t :: t in r <==> exists x :: x in rows && x.date == d && x.ticker == t
  {
    set x | x in rows && x.date == d :: x.ticker
  }

  /** `TickerSet` is `set(df['ticker'])` over the rows the query for `d` returns. */
  lemma TickerSetOfQuery(rows: seq<CompositionRow>, d: Date)
    ensures TickerSet(rows, d) == set t | t in TickersOf(RowsOn(rows, d))
  {
    TickersOfHolds(RowsOn(rows, d));
  }

  /** The close of `t` on `d`, if `daily_stock_data` has that row. */
  function CloseOn(daily: seq<DailyRow>, t: Ticker, d: Date): (r: Option<real>)
    ensures r.Some? <==> exists x :: x in daily && x.ticker == t && x.date == d
    ensures r.Some? ==> exists x :: x in daily && x.ticker == t && x.date == d && x.close == r.value
    ensures UniqueBy(daily, DailyKey) ==>
      forall x :: x in daily && x.ticker == t && x.date == d ==> r == Some(x.close)
  {
    if daily == [] then None
    else if daily[0].ticker == t && daily[0].date == d then Some(daily[0].close)
    else
      assert daily == [daily[0]] + daily[1..];
      assert UniqueBy(daily, DailyKey) ==> UniqueBy(daily[1..], DailyKey) by {
        if UniqueBy(daily, DailyKey) {
          forall i, j | 0 <= i < j < |daily[1..]| ensures DailyKey(daily[1..][i]) != DailyKey(daily[1..][j]) {
            assert daily[1..][i] == daily[i + 1] && daily[1..][j] == daily[j + 1];
          }
        }
      }
      CloseOn(daily[1..], t, d)
  }
}
