/**
  The read side of the index service over the store, without the cache in
  front of it: the composition held on one date, the performance over a
  range with its summary statistics, and the composition changes between
  consecutive composition dates of a range.
*/
module Queries {
  import opened Wrappers
  import opened Seqs
  import opened Dates
  import opened Tables

  /** The `ValueError`s the read queries raise when the store holds nothing for the request. */
  datatype QueryError =
    | NoCompositionOn(date: Date)
    | NoPerformanceIn(start: Date, end: Date)
    | NoCompositionsIn(start: Date, end: Date)

  // ---------------------------------------------------------------- composition

  /** One entry of `compositions` in a composition reply. */
  datatype Holding = Holding(
    ticker: Ticker, name: string, weight: real, marketCap: real,
    sector: Option<string>, industry: Option<string>)

  datatype CompositionReply = CompositionReply(date: Date, totalStocks: nat, holdings: seq<Holding>)

  function HoldingOf(x: CompositionRow, m: StockMeta): Holding
  {
    Holding(x.ticker, m.name, x.weight, x.marketCap, m.sector, m.industry)
  }

  /** `index_compositions ic JOIN stocks s ON ic.ticker = s.ticker`, in row order: rows without a stock drop out. */
  function Joined(rows: seq<CompositionRow>, stocks: map<Ticker, StockMeta>): (r: seq<Holding>)
    ensures |r| <= |rows|
    ensures (forall x :: x in rows ==> x.ticker in stocks) ==> |r| == |rows|
    ensures forall h :: h in r <==> exists x :: x in rows && x.ticker in stocks && h == HoldingOf(x, stocks[x.ticker])
  {
    if rows == [] then []
    else
      assert rows == [rows[0]] + rows[1..];
      var rest := Joined(rows[1..], stocks);
      if rows[0].ticker in stocks then [HoldingOf(rows[0], stocks[rows[0].ticker])] + rest else rest
  }

  /** `ORDER BY ic.market_cap DESC`: no holding precedes a larger one. */
  ghost predicate HoldingsDescending(s: seq<Holding>)
  {
    forall i, j :: 0 <= i < j < |s| ==> s[i].marketCap >= s[j].marketCap
  }

  function InsertHolding(x: Holding, s: seq<Holding>): (r: seq<Holding>)
    requires HoldingsDescending(s)
    ensures HoldingsDescending(r)
    ensures |r| == |s| + 1
    ensures forall y :: y in r <==> y == x || y in s
  {
    if s == [] || x.marketCap >= s[0].marketCap then [x] + s
    else
      var tail := InsertHolding(x, s[1..]);
      assert s == [s[0]] + s[1..];
      assert forall k :: 0 <= k < |tail| ==> s[0].marketCap >= tail[k].marketCap by {
        forall k | 0 <= k < |tail| ensures s[0].marketCap >= tail[k].marketCap {
          assert tail[k] in tail;
        }
      }
      [s[0]] + tail
  }

  function SortHoldings(s: seq<Holding>): (r: seq<Holding>)
    ensures HoldingsDescending(r)
    ensures |r| == |s|
    ensures forall y :: y in r <==> y in s
  {
    if s == [] then []
    else
      assert s == [s[0]] + s[1..];
      InsertHolding(s[0], SortHoldings(s[1..]))
  }

  lemma {:induction false} InsertHoldingPermutes(x: Holding, s: seq<Holding>)
    requires HoldingsDescending(s)
    ensures multiset(InsertHolding(x, s)) == multiset{x} + multiset(s)
  {
    if s != [] && x.marketCap < s[0].marketCap {
      assert s == [s[0]] + s[1..];
      InsertHoldingPermutes(x, s[1..]);
    }
  }

  /** The ordering only reorders the joined rows. */
  lemma {:induction false} SortHoldingsPermutes(s: seq<Holding>)
    ensures multiset(SortHoldings(s)) == multiset(s)
  {
    if s != [] {
      assert s == [s[0]] + s[1..];
      SortHoldingsPermutes(s[1..]);
      InsertHoldingPermutes(s[0], SortHoldings(s[1..]));
    }
  }

  /**
    `get_composition` past the cache: the holdings of `d` joined with their
    stocks, largest market cap first, or the error when the join is empty.
  */
  function CompositionOn(st: Store, d: Date): (r: Result<CompositionReply, QueryError>)
    ensures r.Err? <==> forall x :: x in st.compositions && x.date == d ==> x.ticker !in st.stocks
    ensures r.Err? ==> r.error == NoCompositionOn(d)
    ensures r.Ok? ==> r.value.date == d && r.value.totalStocks == |r.value.holdings|
    ensures r.Ok? ==> HoldingsDescending(r.value.holdings)
    ensures r.Ok? ==> forall h :: h in r.value.holdings <==>
      exists x :: x in st.compositions && x.date == d && x.ticker in st.stocks && h == HoldingOf(x, st.stocks[x.ticker])
  {
    var joined := Joined(RowsOn(st.compositions, d), st.stocks);
    assert forall x :: x in st.compositions && x.date == d && x.ticker in st.stocks ==> HoldingOf(x, st.stocks[x.ticker]) in joined;
    if joined == [] then
      Err(NoCompositionOn(d))
    else
      assert joined[0] in joined;
      var holdings := SortHoldings(joined);
      Ok(CompositionReply(d, |holdings|, holdings))
  }

  /**
    Under the foreign key every composition row joins, so the reply fails
    exactly when the date has no rows, and otherwise lists each row of the
    date once.
  */
  lemma CompositionCountsRows(st: Store, d: Date)
    requires ReferencesStocks(st)
    ensures CompositionOn(st, d).Err? <==> RowsOn(st.compositions, d) == []
    ensures CompositionOn(st, d).Ok? ==>
      && CompositionOn(st, d).value.totalStocks == |RowsOn(st.compositions, d)|
      && multiset(CompositionOn(st, d).value.holdings) == multiset(Joined(RowsOn(st.compositions, d), st.stocks))
  {
    var rows := RowsOn(st.compositions, d);
    var joined := Joined(rows, st.stocks);
    assert |joined| == |rows|;
    if rows != [] {
      assert rows[0] in rows;
      SortHoldingsPermutes(joined);
    }
  }

  // ---------------------------------------------------------------- performance

  /** One entry of `performance_data`: a stored return of 0 is reported as `None` (`x if x else None`). */
  datatype Point = Point(date: Date, value: real, dailyReturn: Option<real>, cumulativeReturn: Option<real>)

  datatype Summary = Summary(
    totalReturn: real, averageDailyReturn: real, volatility: real,
    maxDailyReturn: real, minDailyReturn: real, sharpeRatio: real)

  datatype PerformanceReply = PerformanceReply(start: Date, end: Date, totalDays: nat, points: seq<Point>, summary: Summary)

  /** `float(x) if x else None`: zero is falsy, so it is reported as missing. */
  function Reported(x: real): Option<real>
  {
    if x != 0.0 then Some(x) else None
  }

  /** A performance row as `get_performance` reports it: date and value as stored, a zero return as missing. */
  function PointOf(x: PerformanceRow): (p: Point)
    ensures p.date == x.date && p.value == x.value
    ensures p.dailyReturn.None? <==> x.dailyReturn == 0.0
    ensures p.dailyReturn.Some? ==> p.dailyReturn.value == x.dailyReturn
    ensures p.cumulativeReturn.None? <==> x.cumulativeReturn == 0.0
    ensures p.cumulativeReturn.Some? ==> p.cumulativeReturn.value == x.cumulativeReturn
  {
    Point(x.date, x.value, Reported(x.dailyReturn), Reported(x.cumulativeReturn))
  }

  function PerformanceInside(start: Date, end: Date): PerformanceRow -> bool
  {
    (x: PerformanceRow) => InRange(x.date, start, end)
  }

  /** `ORDER BY date`: no row precedes an earlier one. */
  ghost predicate DatesAscending(s: seq<PerformanceRow>)
  {
    forall i, j :: 0 <= i < j < |s| ==> NotAfter(s[i].date, s[j].date)
  }

  function InsertByDate(x: PerformanceRow, s: seq<PerformanceRow>): (r: seq<PerformanceRow>)
    requires DatesAscending(s)
    ensures DatesAscending(r)
    ensures |r| == |s| + 1
    ensures forall y :: y in r <==> y == x || y in s
  {
    if s == [] || NotAfter(x.date, s[0].date) then [x] + s
    else
      var tail := InsertByDate(x, s[1..]);
      assert s == [s[0]] + s[1..];
      assert forall k :: 0 <= k < |tail| ==> NotAfter(s[0].date, tail[k].date) by {
        forall k | 0 <= k < |tail| ensures NotAfter(s[0].date, tail[k].date) {
          assert tail[k] in tail;
        }
      }
      [s[0]] + tail
  }

  function SortByDate(s: seq<PerformanceRow>): (r: seq<PerformanceRow>)
    ensures DatesAscending(r)
    ensures |r| == |s|
    ensures forall y :: y in r <==> y in s
  {
    if s == [] then []
    else
      assert s == [s[0]] + s[1..];
      InsertByDate(s[0], SortByDate(s[1..]))
  }

  lemma {:induction false} InsertByDatePermutes(x: PerformanceRow, s: seq<PerformanceRow>)
    requires DatesAscending(s)
    ensures multiset(InsertByDate(x, s)) == multiset{x} + multiset(s)
  {
    if s != [] && !NotAfter(x.date, s[0].date) {
      assert s == [s[0]] + s[1..];
      InsertByDatePermutes(x, s[1..]);
    }
  }

  lemma {:induction false} SortByDatePermutes(s: seq<PerformanceRow>)
    ensures multiset(SortByDate(s)) == multiset(s)
  {
    if s != [] {
      assert s == [s[0]] + s[1..];
      SortByDatePermutes(s[1..]);
      InsertByDatePermutes(s[0], SortByDate(s[1..]));
    }
  }

  /** `SELECT ... FROM index_performance WHERE date >= ? AND date <= ? ORDER BY date`. */
  function PerformanceRows(rows: seq<PerformanceRow>, start: Date, end: Date): (r: seq<PerformanceRow>)
    ensures DatesAscending(r)
    ensures forall x :: x in r <==> x in rows && InRange(x.date, start, end)
  {
    SortByDate(Filter(rows, PerformanceInside(start, end)))
  }

  /** With one row per date, the range's rows come out once each, strictly ascending by date. */
  lemma PerformanceRowsIncrease(rows: seq<PerformanceRow>, start: Date, end: Date)
    requires UniqueBy(rows, PerformanceRowKey)
    ensures var r := PerformanceRows(rows, start, end);
      && multiset(r) == multiset(Filter(rows, PerformanceInside(start, end)))
      && forall i, j :: 0 <= i < j < |r| ==> Before(r[i].date, r[j].date)
  {
    var f := Filter(rows, PerformanceInside(start, end));
    var r := PerformanceRows(rows, start, end);
    SortByDatePermutes(f);
    FilterUniqueBy(rows, PerformanceInside(start, end), PerformanceRowKey);
    UniqueByPermutation(f, r, PerformanceRowKey);
    forall i, j | 0 <= i < j < |r| ensures Before(r[i].date, r[j].date) {
      assert PerformanceRowKey(r[i]) != PerformanceRowKey(r[j]);
      SortKeyInjective(r[i].date, r[j].date);
    }
  }

  /** The `daily_return` column. */
  function Returns(rows: seq<PerformanceRow>): (r: seq<real>)
    ensures |r| == |rows|
    ensures forall k :: 0 <= k < |rows| ==> r[k] == rows[k].dailyReturn
  {
    if rows == [] then [] else [rows[0].dailyReturn] + Returns(rows[1..])
  }

  function Identity(x: real): real { x }

  /** `mean()` of a non-empty column: the value that, taken `|xs|` times, gives the column's sum. */
  function Mean(xs: seq<real>): (m: real)
    requires xs != []
    ensures m * |xs| as real == Sum(xs, Identity)
  {
    Sum(xs, Identity) / |xs| as real
  }

  /** A column whose entries lie in `[lo, hi]` sums to between `|xs| * lo` and `|xs| * hi`. */
  lemma {:induction false} SumBetween(xs: seq<real>, lo: real, hi: real)
    requires forall k :: 0 <= k < |xs| ==> lo <= xs[k] <= hi
    ensures |xs| as real * lo <= Sum(xs, Identity) <= |xs| as real * hi
  {
    if xs != [] {
      var rest := xs[1..];
      assert forall k :: 0 <= k < |rest| ==> rest[k] == xs[k + 1];
      SumBetween(rest, lo, hi);
      assert |xs| as real * lo == lo + |rest| as real * lo;
      assert |xs| as real * hi == hi + |rest| as real * hi;
    }
  }

  lemma AverageBetween(lo: real, m: real, hi: real, total: real, n: real)
    requires n > 0.0 && n * lo <= total <= n * hi && m * n == total
    ensures lo <= m <= hi
  {
  }

  /** The mean lies between the smallest and the largest entry. */
  lemma MeanBetween(xs: seq<real>)
    requires xs != []
    ensures Min(xs) <= Mean(xs) <= Max(xs)
  {
    MeanWithin(xs, Min(xs), Max(xs));
  }

  /** Bounds every entry shares bound the mean as well. */
  lemma MeanWithin(xs: seq<real>, lo: real, hi: real)
    requires xs != []
    requires forall k :: 0 <= k < |xs| ==> lo <= xs[k] <= hi
    ensures lo <= Mean(xs) <= hi
  {
    SumBetween(xs, lo, hi);
    AverageBetween(lo, Mean(xs), hi, Sum(xs, Identity), |xs| as real);
  }

  function Max(xs: seq<real>): (m: real)
    requires xs != []
    ensures forall k :: 0 <= k < |xs| ==> xs[k] <= m
    ensures exists k :: 0 <= k < |xs| && xs[k] == m
  {
    if |xs| == 1 then xs[0]
    else
      var rest := Max(xs[1..]);
      assert forall k :: 1 <= k < |xs| ==> xs[k] == xs[1..][k - 1];
      if xs[0] >= rest then xs[0] else rest
  }

  function Min(xs: seq<real>): (m: real)
    requires xs != []
    ensures forall k :: 0 <= k < |xs| ==> m <= xs[k]
    ensures exists k :: 0 <= k < |xs| && xs[k] == m
  {
    if |xs| == 1 then xs[0]
    else
      var rest := Min(xs[1..]);
      assert forall k :: 1 <= k < |xs| ==> xs[k] == xs[1..][k - 1];
      if xs[0] <= rest then xs[0] else rest
  }

  const TradingDaysPerYear: real := 252.0

  /** The default `risk_free_rate` of `_calculate_sharpe_ratio`: 2% as a fraction. */
  const RiskFreeRate: real := 0.02

  /** The same rate in the percent units `daily_return` is stored in. */
  const RiskFreePercent: real := RiskFreeRate * 100.0

  /**
    `_calculate_sharpe_ratio` as written: `std` is the sample standard
    deviation polars computes and `root` is `252 ** 0.5`, both floating-point
    results taken as parameters. The returns are percentages, yet the
    fractional rate is subtracted from them.
  */
  function SharpeRatioAsWritten(xs: seq<real>, std: seq<real> -> real, root: real): (r: real)
    requires root > 0.0
    ensures |xs| < 2 ==> r == 0.0
    ensures std(xs) == 0.0 ==> r == 0.0
  {
    if |xs| < 2 then 0.0
    else
      var s := std(xs);
      if s == 0.0 then 0.0
      else
        assert s * root != 0.0 by { NonzeroProduct(s, root); }
        (Mean(xs) * TradingDaysPerYear - RiskFreeRate) / (s * root)
  }

  /** The Sharpe ratio with the rate in the returns' own units. */
  function SharpeRatio(xs: seq<real>, std: seq<real> -> real, root: real): (r: real)
    requires root > 0.0
    ensures |xs| < 2 ==> r == 0.0
    ensures std(xs) == 0.0 ==> r == 0.0
  {
    if |xs| < 2 then 0.0
    else
      var s := std(xs);
      if s == 0.0 then 0.0
      else
        assert s * root != 0.0 by { NonzeroProduct(s, root); }
        (Mean(xs) * TradingDaysPerYear - RiskFreePercent) / (s * root)
  }

  /** A positive ratio means the annualised return beats the risk-free rate, and only then. */
  lemma SharpeSign(xs: seq<real>, std: seq<real> -> real, root: real)
    requires |xs| >= 2 && std(xs) > 0.0 && root > 0.0
    ensures SharpeRatio(xs, std, root) > 0.0 <==> Mean(xs) * TradingDaysPerYear > RiskFreePercent
    ensures SharpeRatio(xs, std, root) == 0.0 <==> Mean(xs) * TradingDaysPerYear == RiskFreePercent
  {
    var d := std(xs) * root;
    var excess := Mean(xs) * TradingDaysPerYear - RiskFreePercent;
    assert d > 0.0 by { PositiveProduct(std(xs), root); }
    QuotientSign(excess, d);
  }

  lemma NonzeroProduct(a: real, b: real)
    requires a != 0.0 && b > 0.0
    ensures a * b != 0.0
  {
  }

  lemma PositiveProduct(a: real, b: real)
    requires a > 0.0 && b > 0.0
    ensures a * b > 0.0
  {
  }

  lemma QuotientSign(n: real, d: real)
    requires d > 0.0
    ensures n / d > 0.0 <==> n > 0.0
    ensures n / d == 0.0 <==> n == 0.0
  {
  }

  /**
    As written, the ratio exceeds the intended one by `1.98 / (std * root)`
    whenever the returns vary.
  */
  lemma SharpeAsWrittenOverstates(xs: seq<real>, std: seq<real> -> real, root: real)
    requires |xs| >= 2 && std(xs) > 0.0 && root > 0.0
    ensures SharpeRatioAsWritten(xs, std, root) - SharpeRatio(xs, std, root)
      == (RiskFreePercent - RiskFreeRate) / (std(xs) * root)
    ensures SharpeRatioAsWritten(xs, std, root) > SharpeRatio(xs, std, root)
  {
    var d := std(xs) * root;
    var a := Mean(xs) * TradingDaysPerYear;
    assert d > 0.0 by { PositiveProduct(std(xs), root); }
    QuotientDifference(a - RiskFreeRate, a - RiskFreePercent, d);
    QuotientSign(RiskFreePercent - RiskFreeRate, d);
  }

  lemma QuotientDifference(m: real, n: real, d: real)
    requires d > 0.0
    ensures m / d - n / d == (m - n) / d
  {
  }

  /**
    Two days of 1/252 and 3/252 percent average 2/252 percent, which
    annualises to exactly the 2% rate: with the returns varying, the intended
    ratio is 0, while the ratio as written is positive.
  */
  lemma BreakEvenLooksPositive(std: seq<real> -> real, root: real)
    requires std([1.0 / 252.0, 3.0 / 252.0]) > 0.0 && root > 0.0
    ensures SharpeRatio([1.0 / 252.0, 3.0 / 252.0], std, root) == 0.0
    ensures SharpeRatioAsWritten([1.0 / 252.0, 3.0 / 252.0], std, root) > 0.0
  {
    var xs := [1.0 / 252.0, 3.0 / 252.0];
    assert Sum(xs, Identity) == 1.0 / 252.0 + (3.0 / 252.0 + 0.0) by {
      assert xs[1..] == [3.0 / 252.0];
      assert xs[1..][1..] == [];
    }
    assert Mean(xs) * TradingDaysPerYear == RiskFreePercent;
    SharpeSign(xs, std, root);
    SharpeAsWrittenOverstates(xs, std, root);
  }

  /**
    The `summary` of `get_performance`: the last cumulative return, and the
    statistics of the daily returns only when there are at least two rows.
  */
  function Summarise(rows: seq<PerformanceRow>, std: seq<real> -> real, root: real): (s: Summary)
    requires rows != [] && root > 0.0
    ensures s.totalReturn == rows[|rows| - 1].cumulativeReturn
    ensures |rows| < 2 ==> s == Summary(rows[0].cumulativeReturn, 0.0, 0.0, 0.0, 0.0, 0.0)
    ensures |rows| >= 2 ==>
      && s.averageDailyReturn == Mean(Returns(rows))
      && s.volatility == std(Returns(rows))
      && s.sharpeRatio == SharpeRatio(Returns(rows), std, root)
      && (forall k :: 0 <= k < |rows| ==> s.minDailyReturn <= rows[k].dailyReturn <= s.maxDailyReturn)
      && (exists k :: 0 <= k < |rows| && rows[k].dailyReturn == s.maxDailyReturn)
      && (exists k :: 0 <= k < |rows| && rows[k].dailyReturn == s.minDailyReturn)
  {
    var last := rows[|rows| - 1].cumulativeReturn;
    if |rows| < 2 then Summary(last, 0.0, 0.0, 0.0, 0.0, 0.0)
    else
      var xs := Returns(rows);
      Summary(last, Mean(xs), std(xs), Max(xs), Min(xs), SharpeRatio(xs, std, root))
  }

  /**
    The `summary` as written: the statistics of `Summarise`, with the Sharpe
    ratio that subtracts the fractional rate from percent returns.
  */
  function SummariseAsWritten(rows: seq<PerformanceRow>, std: seq<real> -> real, root: real): (s: Summary)
    requires rows != [] && root > 0.0
    ensures s.sharpeRatio == SharpeRatioAsWritten(Returns(rows), std, root)
    ensures s == Summarise(rows, std, root).(sharpeRatio := s.sharpeRatio)
    ensures |rows| < 2 ==> s == Summarise(rows, std, root)
    ensures |rows| >= 2 && std(Returns(rows)) > 0.0 ==> s.sharpeRatio > Summarise(rows, std, root).sharpeRatio
  {
    var xs := Returns(rows);
    assert |xs| >= 2 && std(xs) > 0.0 ==> SharpeRatioAsWritten(xs, std, root) > SharpeRatio(xs, std, root) by {
      if |xs| >= 2 && std(xs) > 0.0 {
        SharpeAsWrittenOverstates(xs, std, root);
      }
    }
    Summarise(rows, std, root).(sharpeRatio := SharpeRatioAsWritten(xs, std, root))
  }

  /** The rows of the query, each as the point it is reported as. */
  function Points(rows: seq<PerformanceRow>): (r: seq<Point>)
    ensures |r| == |rows|
    ensures forall k :: 0 <= k < |rows| ==> r[k] == PointOf(rows[k])
    ensures forall p :: p in r <==> exists x :: x in rows && p == PointOf(x)
  {
    if rows == [] then []
    else
      assert rows == [rows[0]] + rows[1..];
      [PointOf(rows[0])] + Points(rows[1..])
  }

  /**
    `get_performance` past the cache: the range's rows by date, each reported
    with zero returns shown as missing, and their summary; the error when the
    range holds no row.
  */
  function PerformanceIn(st: Store, start: Date, end: Date, std: seq<real> -> real, root: real)
    : (r: Result<PerformanceReply, QueryError>)
    requires root > 0.0
    ensures r.Err? <==> forall x :: x in st.performance ==> !InRange(x.date, start, end)
    ensures r.Err? ==> r.error == NoPerformanceIn(start, end)
    ensures r.Ok? ==> r.value.start == start && r.value.end == end
    ensures r.Ok? ==> r.value.totalDays == |r.value.points| == |PerformanceRows(st.performance, start, end)|
    ensures r.Ok? ==> forall k :: 0 <= k < |r.value.points| ==>
      r.value.points[k] == PointOf(PerformanceRows(st.performance, start, end)[k])
    ensures r.Ok? ==> forall p :: p in r.value.points <==>
      exists x :: x in st.performance && InRange(x.date, start, end) && p == PointOf(x)
    ensures r.Ok? ==> r.value.summary == Summarise(PerformanceRows(st.performance, start, end), std, root)
  {
    var rows := PerformanceRows(st.performance, start, end);
    if rows == [] then
      Err(NoPerformanceIn(start, end))
    else
      assert rows[0] in rows;
      var points := Points(rows);
      Ok(PerformanceReply(start, end, |points|, points, Summarise(rows, std, root)))
  }

  /** `get_performance` past the cache as written: the reply of `PerformanceIn` with the summary as written. */
  function PerformanceInAsWritten(st: Store, start: Date, end: Date, std: seq<real> -> real, root: real)
    : (r: Result<PerformanceReply, QueryError>)
    requires root > 0.0
    ensures r.Err? <==> forall x :: x in st.performance ==> !InRange(x.date, start, end)
    ensures r.Err? ==> r == PerformanceIn(st, start, end, std, root)
    ensures r.Ok? ==> PerformanceRows(st.performance, start, end) != []
    ensures r.Ok? ==> r.value == PerformanceIn(st, start, end, std, root).value.(summary := r.value.summary)
    ensures r.Ok? ==> r.value.summary == SummariseAsWritten(PerformanceRows(st.performance, start, end), std, root)
  {
    var rows := PerformanceRows(st.performance, start, end);
    match PerformanceIn(st, start, end, std, root)
    case Err(e) => Err(e)
    case Ok(v) => Ok(v.(summary := SummariseAsWritten(rows, std, root)))
  }

  // ---------------------------------------------------------------- composition changes

  datatype Action = Added | Removed

  /** One entry of `stocks_added` or `stocks_removed`. */
  datatype Change = Change(ticker: Ticker, name: string, action: Action, marketCap: real)

  datatype ChangeRecord = ChangeRecord(date: Date, added: seq<Change>, removed: seq<Change>, totalChanges: nat)

  datatype ChangesReply = ChangesReply(start: Date, end: Date, totalChangeDates: nat, changes: seq<ChangeRecord>)

  /** `SELECT DISTINCT date FROM index_compositions WHERE date >= ? AND date <= ? ORDER BY date`. */
  function ChangeDates(rows: seq<CompositionRow>, start: Date, end: Date): (r: seq<Date>)
    ensures Increasing(r)
    ensures forall d :: d in r <==> InRange(d, start, end) && exists x :: x in rows && x.date == d
  {
    DistinctAscending(DatesIn(rows, CompositionDate, start, end))
  }

  function ChangeOf(x: CompositionRow, m: StockMeta, action: Action): Change
  {
    Change(x.ticker, m.name, action, x.marketCap)
  }

  /**
    The detail query `... JOIN stocks ... WHERE ic.date = ? AND ic.ticker IN (...)`,
    in row order; the source skips it for an empty set, which yields the same
    empty list.
  */
  function Details(rows: seq<CompositionRow>, stocks: map<Ticker, StockMeta>, d: Date, tickers: set<Ticker>, action: Action)
    : (r: seq<Change>)
    ensures forall c :: c in r <==>
      exists x :: x in rows && x.date == d && x.ticker in tickers && x.ticker in stocks && c == ChangeOf(x, stocks[x.ticker], action)
  {
    if rows == [] then []
    else
      assert rows == [rows[0]] + rows[1..];
      var x := rows[0];
      var rest := Details(rows[1..], stocks, d, tickers, action);
      if x.date == d && x.ticker in tickers && x.ticker in stocks then [ChangeOf(x, stocks[x.ticker], action)] + rest else rest
  }

  /** The tickers held on `curr` and not on `prev`. */
  function Entering(st: Store, prev: Date, curr: Date): set<Ticker>
  {
    TickerSet(st.compositions, curr) - TickerSet(st.compositions, prev)
  }

  /**
    One pass of the comparison loop: a record for `curr` when its ticker set
    differs from that of `prev`, and nothing otherwise.
  */
  function Compare(st: Store, prev: Date, curr: Date): (r: Option<ChangeRecord>)
    ensures r.Some? <==> TickerSet(st.compositions, prev) != TickerSet(st.compositions, curr)
    ensures r.Some? ==> r.value.date == curr && r.value.totalChanges == |r.value.added| + |r.value.removed|
    ensures r.Some? ==> forall c :: c in r.value.added ==> c.action == Added && c.ticker in Entering(st, prev, curr)
    ensures r.Some? ==> forall c :: c in r.value.removed ==> c.action == Removed && c.ticker in Entering(st, curr, prev)
  {
    var added := Entering(st, prev, curr);
    var removed := Entering(st, curr, prev);
    if added == {} && removed == {} then
      assert TickerSet(st.compositions, prev) == TickerSet(st.compositions, curr);
      None
    else
      assert TickerSet(st.compositions, prev) != TickerSet(st.compositions, curr) by {
        if added != {} {
          var t :| t in added;
          assert t !in TickerSet(st.compositions, prev);
        } else {
          var t :| t in removed;
          assert t !in TickerSet(st.compositions, curr);
        }
      }
      var a := Details(st.compositions, st.stocks, curr, added, Added);
      var rm := Details(st.compositions, st.stocks, prev, removed, Removed);
      Some(ChangeRecord(curr, a, rm, |a| + |rm|))
  }

  /**
    Under the foreign key, the added entries name exactly the tickers that
    entered and the removed entries exactly those that left.
  */
  lemma ChangeTickers(st: Store, prev: Date, curr: Date)
    requires ReferencesStocks(st) && Compare(st, prev, curr).Some?
    ensures var rec := Compare(st, prev, curr).value;
      && (forall t :: t in Entering(st, prev, curr) <==> exists c :: c in rec.added && c.ticker == t)
      && (forall t :: t in Entering(st, curr, prev) <==> exists c :: c in rec.removed && c.ticker == t)
  {
    var rec := Compare(st, prev, curr).value;
    forall t | t in Entering(st, prev, curr) ensures exists c :: c in rec.added && c.ticker == t {
      var x :| x in st.compositions && x.date == curr && x.ticker == t;
      assert ChangeOf(x, st.stocks[t], Added) in rec.added;
    }
    forall t | t in Entering(st, curr, prev) ensures exists c :: c in rec.removed && c.ticker == t {
      var x :| x in st.compositions && x.date == prev && x.ticker == t;
      assert ChangeOf(x, st.stocks[t], Removed) in rec.removed;
    }
  }

  /** The comparison of each composition date with the one before it. */
  function Comparisons(st: Store, dates: seq<Date>): (r: seq<Option<ChangeRecord>>)
    requires dates != []
    ensures |r| == |dates| - 1
    ensures forall k :: 0 <= k < |r| ==> r[k] == Compare(st, dates[k], dates[k + 1])
  {
    seq(|dates| - 1, k requires 0 <= k < |dates| - 1 => Compare(st, dates[k], dates[k + 1]))
  }

  /** `if added or removed: changes.append(...)`: the records the comparisons produced, in order. */
  function Kept(cs: seq<Option<ChangeRecord>>): (r: seq<ChangeRecord>)
    ensures |r| <= |cs|
    ensures forall rec :: rec in r <==> Some(rec) in cs
  {
    if cs == [] then []
    else
      assert cs == [cs[0]] + cs[1..];
      (if cs[0].Some? then [cs[0].value] else []) + Kept(cs[1..])
  }

  /** Records dated along ascending dates are kept in strictly ascending order, none before the first date. */
  lemma {:induction false} KeptIncrease(cs: seq<Option<ChangeRecord>>, ds: seq<Date>)
    requires |cs| == |ds| && Increasing(ds)
    requires forall k :: 0 <= k < |cs| && cs[k].Some? ==> cs[k].value.date == ds[k]
    ensures forall m, n :: 0 <= m < n < |Kept(cs)| ==> Before(Kept(cs)[m].date, Kept(cs)[n].date)
    ensures ds != [] ==> forall m :: 0 <= m < |Kept(cs)| ==> NotAfter(ds[0], Kept(cs)[m].date)
  {
    if cs != [] {
      var rest := Kept(cs[1..]);
      TailIncreasing(ds);
      assert forall k :: 0 <= k < |cs[1..]| && cs[1..][k].Some? ==> cs[1..][k].value.date == ds[1..][k] by {
        forall k | 0 <= k < |cs[1..]| ensures cs[1..][k] == cs[k + 1] && ds[1..][k] == ds[k + 1] {}
      }
      KeptIncrease(cs[1..], ds[1..]);
      if |ds| > 1 {
        assert Before(ds[0], ds[1]);
        assert forall m :: 0 <= m < |rest| ==> Before(ds[0], rest[m].date);
      } else {
        assert rest == [];
      }
    }
  }

  /** The comparison at position `k` is dated `dates[k + 1]`, and present exactly when the two ticker sets differ. */
  lemma ComparisonsAt(st: Store, dates: seq<Date>)
    requires dates != []
    ensures var cs := Comparisons(st, dates);
      && (forall k :: 0 <= k < |cs| && cs[k].Some? ==> cs[k].value.date == dates[k + 1])
      && (forall k :: 0 <= k < |cs| ==> (cs[k].Some? <==> TickerSet(st.compositions, dates[k]) != TickerSet(st.compositions, dates[k + 1])))
  {
  }

  /** The kept comparisons are exactly the records of the date pairs whose ticker sets differ, in date order. */
  lemma ChangesAlong(st: Store, dates: seq<Date>)
    requires dates != [] && Increasing(dates)
    ensures var r := Kept(Comparisons(st, dates));
      && (forall rec :: rec in r <==> exists j :: 1 <= j < |dates| && Compare(st, dates[j - 1], dates[j]) == Some(rec))
      && (forall m, n :: 0 <= m < n < |r| ==> Before(r[m].date, r[n].date))
  {
    KeptAlong(st, dates);
    KeptAlongInOrder(st, dates);
  }

  /** A record is kept exactly when some consecutive pair of dates produced it. */
  lemma KeptAlong(st: Store, dates: seq<Date>)
    requires dates != []
    ensures forall rec :: rec in Kept(Comparisons(st, dates)) <==>
      exists j :: 1 <= j < |dates| && Compare(st, dates[j - 1], dates[j]) == Some(rec)
  {
    var cs := Comparisons(st, dates);
    forall rec | rec in Kept(cs) ensures exists j :: 1 <= j < |dates| && Compare(st, dates[j - 1], dates[j]) == Some(rec) {
      var k :| 0 <= k < |cs| && cs[k] == Some(rec);
      assert Compare(st, dates[(k + 1) - 1], dates[k + 1]) == Some(rec);
    }
    forall rec, j | 1 <= j < |dates| && Compare(st, dates[j - 1], dates[j]) == Some(rec) ensures rec in Kept(cs) {
      assert cs[j - 1] == Some(rec);
    }
  }

  /** Along ascending dates the kept records are in strictly ascending date order. */
  lemma KeptAlongInOrder(st: Store, dates: seq<Date>)
    requires dates != [] && Increasing(dates)
    ensures var r := Kept(Comparisons(st, dates));
      forall m, n :: 0 <= m < n < |r| ==> Before(r[m].date, r[n].date)
  {
    var cs := Comparisons(st, dates);
    var ds := dates[1..];
    forall k | 0 <= k < |ds| ensures ds[k] == dates[k + 1] {}
    TailIncreasing(dates);
    ComparisonsAt(st, dates);
    KeptIncrease(cs, ds);
  }

  /**
    `get_composition_changes` past the cache: a record for every composition
    date of the range whose ticker set differs from the previous composition
    date's, in date order; the error when the range holds no composition row.
  */
  function CompositionChanges(st: Store, start: Date, end: Date): (r: Result<ChangesReply, QueryError>)
    ensures r.Err? <==> forall x :: x in st.compositions ==> !InRange(x.date, start, end)
    ensures r.Err? ==> r.error == NoCompositionsIn(start, end)
    ensures r.Ok? ==> r.value.start == start && r.value.end == end && r.value.totalChangeDates == |r.value.changes|
    ensures r.Ok? ==> forall rec :: rec in r.value.changes <==>
      exists j :: 1 <= j < |ChangeDates(st.compositions, start, end)|
        && Compare(st, ChangeDates(st.compositions, start, end)[j - 1], ChangeDates(st.compositions, start, end)[j]) == Some(rec)
  {
    var dates := ChangeDates(st.compositions, start, end);
    assert forall x :: x in st.compositions && InRange(x.date, start, end) ==> x.date in dates;
    if dates == [] then Err(NoCompositionsIn(start, end))
    else
      assert dates[0] in dates;
      var changes := Kept(Comparisons(st, dates));
      ChangesAlong(st, dates);
      Ok(ChangesReply(start, end, |changes|, changes))
  }

  /** The records come out strictly ascending by date. */
  lemma ChangesInDateOrder(st: Store, start: Date, end: Date)
    requires CompositionChanges(st, start, end).Ok?
    ensures var changes := CompositionChanges(st, start, end).value.changes;
      forall m, n :: 0 <= m < n < |changes| ==> Before(changes[m].date, changes[n].date)
  {
    var dates := ChangeDates(st.compositions, start, end);
    assert dates != [];
    assert CompositionChanges(st, start, end).value.changes == Kept(Comparisons(st, dates));
    ChangesAlong(st, dates);
  }

  /** Distinct positions of ascending dates hold distinct dates. */
  lemma IncreasingApart(dates: seq<Date>, i: nat, j: nat)
    requires Increasing(dates) && i < |dates| && j < |dates| && i != j
    ensures dates[i] != dates[j]
  {
    if i < j { assert Before(dates[i], dates[j]); } else { assert Before(dates[j], dates[i]); }
  }

  /**
    A record is reported for a composition date exactly when its ticker set
    differs from that of the composition date just before it in the range.
  */
  lemma ChangeReportedIff(st: Store, start: Date, end: Date, j: nat)
    requires 1 <= j < |ChangeDates(st.compositions, start, end)|
    ensures CompositionChanges(st, start, end).Ok?
    ensures var dates := ChangeDates(st.compositions, start, end);
      (exists rec :: rec in CompositionChanges(st, start, end).value.changes && rec.date == dates[j])
        <==> TickerSet(st.compositions, dates[j - 1]) != TickerSet(st.compositions, dates[j])
  {
    var dates := ChangeDates(st.compositions, start, end);
    assert dates[0] in dates;
    var cs := Comparisons(st, dates);
    var changes := Kept(cs);
    assert CompositionChanges(st, start, end).value.changes == changes;
    ComparisonsAt(st, dates);
    if cs[j - 1].Some? {
      assert cs[j - 1].value in changes && cs[j - 1].value.date == dates[j];
    } else {
      forall rec | rec in changes ensures rec.date != dates[j] {
        var k :| 0 <= k < |cs| && cs[k] == Some(rec);
        IncreasingApart(dates, k + 1, j);
      }
    }
  }
}
