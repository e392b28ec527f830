/**
  `IndexService.build_index` without its cache step: the destructive clear of
  the range, the walk over the ascending trading dates, the per-date top-N
  composition with equal weights, and the index value chained from the base
  value with returns taken over the previous trading date's composition.
*/
module IndexBuild {
  import opened Wrappers
  import opened Seqs
  import opened Dates
  import opened Tables
  import opened Selection

  /** `self.base_value`. */
  const BaseValue: real := 1000.0

  function CompositionOutside(start: Date, end: Date): CompositionRow -> bool
  {
    (x: CompositionRow) => !InRange(x.date, start, end)
  }

  function PerformanceOutside(start: Date, end: Date): PerformanceRow -> bool
  {
    (x: PerformanceRow) => !InRange(x.date, start, end)
  }

  /**
    `_clear_index_data`: deletes exactly the composition and performance rows
    dated in `[start, end]`; price data and stock metadata are untouched.
  */
  function ClearRange(s: Store, start: Date, end: Date): (r: Store)
    ensures r.stocks == s.stocks && r.daily == s.daily
    ensures forall x :: x in r.compositions <==> x in s.compositions && !InRange(x.date, start, end)
    ensures forall x :: x in r.performance <==> x in s.performance && !InRange(x.date, start, end)
    ensures Consistent(s) ==> Consistent(r)
  {
    var r := s.(compositions := Filter(s.compositions, CompositionOutside(start, end)),
                performance := Filter(s.performance, PerformanceOutside(start, end)));
    assert Consistent(s) ==> Consistent(r) by {
      if Consistent(s) {
        FilterUniqueBy(s.compositions, CompositionOutside(start, end), CompositionRowKey);
        FilterUniqueBy(s.performance, PerformanceOutside(start, end), PerformanceRowKey);
      }
    }
    r
  }

  /**
    `_get_trading_dates`: every date with a price row in `[start, end]`,
    once each, ascending.
  */
  function TradingDates(daily: seq<DailyRow>, start: Date, end: Date): (r: seq<Date>)
    ensures Increasing(r)
    ensures forall d :: d in r <==> InRange(d, start, end) && exists x :: x in daily && x.date == d
  {
    DistinctAscending(DatesIn(daily, DailyDate, start, end))
  }

  /** The composition rows for `top` on `d`, in selection order. */
  function CompositionRowsFor(d: Date, top: seq<Candidate>, weight: real): (r: seq<CompositionRow>)
    ensures |r| == |top|
    ensures forall x :: x in r ==> x.date == d
  {
    if top == [] then [] else [CompositionRow(d, top[0].ticker, weight, top[0].marketCap)] + CompositionRowsFor(d, top[1..], weight)
  }

  /** Row `k` records the `k`-th selected stock with the given weight. */
  lemma {:induction false} CompositionRowsForAt(d: Date, top: seq<Candidate>, weight: real, k: nat)
    requires k < |top|
    ensures CompositionRowsFor(d, top, weight)[k] == CompositionRow(d, top[k].ticker, weight, top[k].marketCap)
    decreases k
  {
    if k > 0 {
      CompositionRowsForAt(d, top[1..], weight, k - 1);
    }
  }

  /** `(d, t)` is the key of a row `_store_composition` writes for `top`. */
  predicate Selected(d: Date, top: seq<Candidate>, x: CompositionRow)
  {
    x.date == d && exists c :: c in top && c.ticker == x.ticker
  }

  /**
    `_store_composition`: one upsert per selected stock, in selection order.
    Every selected ticker ends with a row of date `d` and the given weight,
    every row under another key is kept, and on a keyed table the only new
    rows are those of the selection.
  */
  function StoreComposition(rows: seq<CompositionRow>, d: Date, top: seq<Candidate>, weight: real): (r: seq<CompositionRow>)
    ensures forall c :: c in top ==> exists x :: x in r && x.date == d && x.ticker == c.ticker && x.weight == weight
    ensures forall x :: x in rows && !Selected(d, top, x) ==> x in r
    ensures UniqueBy(rows, CompositionRowKey) ==> UniqueBy(r, CompositionRowKey)
    ensures UniqueBy(rows, CompositionRowKey) ==> forall x :: x in r ==>
      x in rows || (x.weight == weight && Selected(d, top, x))
    decreases |top|
  {
    if top == [] then rows
    else
      var row := CompositionRow(d, top[0].ticker, weight, top[0].marketCap);
      var next := Upsert(rows, row, CompositionRowKey);
      var r := StoreComposition(next, d, top[1..], weight);
      assert forall c :: c in top[1..] ==> c in top;
      assert Selected(d, top, row);
      assert !Selected(d, top[1..], row) ==> row in r;
      assert forall x :: x in rows && !Selected(d, top, x) ==> x in next && !Selected(d, top[1..], x);
      r
  }

  /** None of `rows` has the key `(d, t)` of a selected ticker `t`. */
  ghost predicate FreshKeys(rows: seq<CompositionRow>, d: Date, top: seq<Candidate>)
  {
    forall x :: x in rows && x.date == d ==> forall c :: c in top ==> x.ticker != c.ticker
  }

  lemma FirstUpsertAppends(rows: seq<CompositionRow>, d: Date, top: seq<Candidate>, row: CompositionRow)
    requires top != [] && FreshKeys(rows, d, top)
    requires row == CompositionRow(d, top[0].ticker, row.weight, row.marketCap)
    ensures Upsert(rows, row, CompositionRowKey) == rows + [row]
  {
    assert top[0] in top;
    assert forall x :: x in rows ==> CompositionRowKey(x) != CompositionRowKey(row);
  }

  lemma UniqueTail(top: seq<Candidate>)
    requires top != [] && UniqueBy(top, CandidateTicker)
    ensures UniqueBy(top[1..], CandidateTicker)
    ensures forall c :: c in top[1..] ==> c.ticker != top[0].ticker
  {
    var tail := top[1..];
    forall i, j | 0 <= i < j < |tail| ensures tail[i].ticker != tail[j].ticker {
      assert tail[i] == top[i + 1] && tail[j] == top[j + 1];
    }
    forall c | c in tail ensures c.ticker != top[0].ticker {
      var m :| 0 <= m < |tail| && tail[m] == c;
      assert top[m + 1] == c;
    }
  }

  lemma FreshAfterFirst(rows: seq<CompositionRow>, d: Date, top: seq<Candidate>, row: CompositionRow)
    requires top != [] && FreshKeys(rows, d, top)
    requires row.ticker == top[0].ticker
    requires forall c :: c in top[1..] ==> c.ticker != top[0].ticker
    ensures FreshKeys(rows + [row], d, top[1..])
  {
    forall x, c | x in rows + [row] && x.date == d && c in top[1..] ensures x.ticker != c.ticker {
      if x != row {
        assert x in rows && c in top;
      }
    }
  }

  /**
    When no row with any of the new keys exists and the selection's tickers
    are distinct, the upserts append the selection's rows in order.
  */
  lemma {:induction false} StoreCompositionAppends(rows: seq<CompositionRow>, d: Date, top: seq<Candidate>, weight: real)
    requires FreshKeys(rows, d, top) && UniqueBy(top, CandidateTicker)
    ensures StoreComposition(rows, d, top, weight) == rows + CompositionRowsFor(d, top, weight)
    decreases |top|
  {
    if top != [] {
      var row := CompositionRow(d, top[0].ticker, weight, top[0].marketCap);
      FirstUpsertAppends(rows, d, top, row);
      UniqueTail(top);
      FreshAfterFirst(rows, d, top, row);
      StoreCompositionAppends(rows + [row], d, top[1..], weight);
      var rest := CompositionRowsFor(d, top[1..], weight);
      calc {
        StoreComposition(rows, d, top, weight);
        StoreComposition(Upsert(rows, row, CompositionRowKey), d, top[1..], weight);
        StoreComposition(rows + [row], d, top[1..], weight);
        rows + [row] + rest;
        { AppendAssociates(rows, [row], rest); }
        rows + ([row] + rest);
        rows + CompositionRowsFor(d, top, weight);
      }
    }
  }

  /** `_store_performance`: an upsert keyed by date. */
  function StorePerformance(rows: seq<PerformanceRow>, row: PerformanceRow): (r: seq<PerformanceRow>)
    ensures row in r
    ensures forall x :: x in rows && x.date != row.date ==> x in r
    ensures UniqueBy(rows, PerformanceRowKey) ==> forall x :: x in r ==> x == row || (x in rows && x.date != row.date)
    ensures UniqueBy(rows, PerformanceRowKey) ==> UniqueBy(r, PerformanceRowKey)
    ensures (forall x :: x in rows ==> x.date != row.date) ==> r == rows + [row]
  {
    Upsert(rows, row, PerformanceRowKey)
  }

  /** `t` has a close on both dates, so the return query's join yields a row for it. */
  predicate Priced(daily: seq<DailyRow>, t: Ticker, prev: Date, curr: Date)
  {
    CloseOn(daily, t, prev).Some? && CloseOn(daily, t, curr).Some?
  }

  /**
    `t` joins with a previous close of 0, where `curr_close / prev_close` is
    not a finite number (infinite, or NaN when the current close is 0 too).
  */
  predicate ZeroBase(daily: seq<DailyRow>, t: Ticker, prev: Date, curr: Date)
  {
    Priced(daily, t, prev, curr) && CloseOn(daily, t, prev).value == 0.0
  }

  lemma QuotientFacts(p: real, c: real)
    requires p != 0.0
    ensures c == p ==> c / p == 1.0
    ensures c == 0.0 ==> c / p == 0.0
    ensures p > 0.0 && c > 0.0 ==> c / p > 0.0
  {
  }

  /**
    `curr_close / prev_close - 1` for a ticker with both closes, 0 for one the
    join drops (it adds nothing to the sum), `None` where the quotient is not
    a finite number.
  */
  function PriceRelative(daily: seq<DailyRow>, t: Ticker, prev: Date, curr: Date): (g: Option<real>)
    ensures g.None? <==> ZeroBase(daily, t, prev, curr)
    ensures !Priced(daily, t, prev, curr) ==> g == Some(0.0)
    ensures Priced(daily, t, prev, curr) && g.Some? && CloseOn(daily, t, curr).value == 0.0 ==> g == Some(-1.0)
    ensures Priced(daily, t, prev, curr) && g.Some? && CloseOn(daily, t, curr) == CloseOn(daily, t, prev) ==> g == Some(0.0)
    ensures PositiveCloses(daily) ==> g.Some? && g.value > -1.0
  {
    var before := CloseOn(daily, t, prev);
    var after := CloseOn(daily, t, curr);
    if before.None? || after.None? then Some(0.0)
    else if before.value == 0.0 then None
    else
      var p, c := before.value, after.value;
      QuotientFacts(p, c);
      assert PositiveCloses(daily) ==> p > 0.0 && c > 0.0;
      Some(c / p - 1.0)
  }

  /**
    The sum of the price relatives of `tickers`, i.e.
    `returns_df['return'].sum()`: not a finite number once one term is not.
  */
  function ReturnSum(tickers: seq<Ticker>, daily: seq<DailyRow>, prev: Date, curr: Date): (s: Option<real>)
    ensures (forall t :: t in tickers ==> !Priced(daily, t, prev, curr)) ==> s == Some(0.0)
    ensures PositiveCloses(daily) && tickers != [] ==> s.Some? && s.value > -(|tickers| as real)
  {
    if tickers == [] then Some(0.0)
    else
      assert forall t :: t in tickers[1..] ==> t in tickers;
      var head := PriceRelative(daily, tickers[0], prev, curr);
      var rest := ReturnSum(tickers[1..], daily, prev, curr);
      if head.Some? && rest.Some? then Some(head.value + rest.value) else None
  }

  /** The sum is not a finite number exactly when one of `tickers` joins with a previous close of 0. */
  lemma {:induction false} ReturnSumUndefined(tickers: seq<Ticker>, daily: seq<DailyRow>, prev: Date, curr: Date)
    ensures ReturnSum(tickers, daily, prev, curr).None? <==> exists t :: t in tickers && ZeroBase(daily, t, prev, curr)
  {
    if tickers != [] {
      ReturnSumUndefined(tickers[1..], daily, prev, curr);
      assert forall t :: t in tickers ==> t == tickers[0] || t in tickers[1..];
      assert forall t :: t in tickers[1..] ==> t in tickers;
    }
  }

  lemma AverageAboveMinusOne(s: real, n: real)
    requires n > 0.0
    ensures s * (1.0 / n) == s / n
    ensures s > -n ==> s / n > -1.0
    ensures s == 0.0 ==> s / n == 0.0
  {
  }

  /**
    `_calculate_daily_return` over the previous date's composition rows:
    0 with no previous composition; otherwise the sum of price relatives
    times `1 / len(prev_tickers)`, an unpriced member counting as a 0
    return, so that a join without rows also gives 0; not a finite number
    when a member joins with a previous close of 0.
  */
  function ReturnOverRows(prevRows: seq<CompositionRow>, daily: seq<DailyRow>, prev: Date, curr: Date): (r: Option<real>)
    ensures prevRows == [] ==> r == Some(0.0)
    ensures (forall t :: t in TickersOf(prevRows) ==> !Priced(daily, t, prev, curr)) ==> r == Some(0.0)
    ensures r.None? <==> ReturnSum(TickersOf(prevRows), daily, prev, curr).None?
    ensures var s := ReturnSum(TickersOf(prevRows), daily, prev, curr);
      prevRows != [] && r.Some? ==> r.value == s.value / (|prevRows| as real)
    ensures PositiveCloses(daily) ==> r.Some? && r.value > -1.0
  {
    if prevRows == [] then Some(0.0)
    else
      var n := |prevRows| as real;
      match ReturnSum(TickersOf(prevRows), daily, prev, curr)
      case None => None
      case Some(s) =>
        AverageAboveMinusOne(s, n);
        Some(s * (1.0 / n))
  }

  /** `_calculate_daily_return(prev_date, curr_date, ...)` reading the composition table. */
  function DailyReturn(compositions: seq<CompositionRow>, daily: seq<DailyRow>, prev: Date, curr: Date): (r: Option<real>)
    ensures RowsOn(compositions, prev) == [] ==> r == Some(0.0)
    ensures PositiveCloses(daily) ==> r.Some? && r.value > -1.0
  {
    ReturnOverRows(RowsOn(compositions, prev), daily, prev, curr)
  }

  /**
    The daily return is not a finite number exactly when a ticker of the
    previous date's composition joins with a previous close of 0.
  */
  lemma DailyReturnUndefined(compositions: seq<CompositionRow>, daily: seq<DailyRow>, prev: Date, curr: Date)
    ensures DailyReturn(compositions, daily, prev, curr).None? <==>
      exists t :: t in TickersOf(RowsOn(compositions, prev)) && ZeroBase(daily, t, prev, curr)
  {
    ReturnSumUndefined(TickersOf(RowsOn(compositions, prev)), daily, prev, curr);
  }

  /** `1.0 / self.index_size`: `size` equal weights make up the whole. */
  function Weight(size: nat): (w: real)
    requires size > 0
    ensures w > 0.0
    ensures size as real * w == 1.0
  {
    1.0 / size as real
  }

  /**
    `previous_value * (1 + daily_return)`: the value moved by the return `r`,
    so that `r` is the relative change from `value`.
  */
  function Compound(value: real, r: real): (v: real)
    ensures value != 0.0 ==> v / value - 1.0 == r
    ensures value > 0.0 && r > -1.0 ==> v > 0.0
  {
    var g := 1.0 + r;
    assert value != 0.0 ==> (value * g) / value == g;
    assert value > 0.0 && r > -1.0 ==> value * g > 0.0 by {
      if value > 0.0 && r > -1.0 {
        assert g > 0.0;
      }
    }
    value * g
  }

  /** The loop state of `build_index`: the store, `previous_value` and `dates_processed`. */
  datatype Progress = Progress(store: Store, previousValue: real, datesProcessed: nat)

  /**
    What one iteration leads to: the next loop state, or, when the return
    of `date` is not a finite number, the store as it stands when the call
    raises (the date's composition is committed, its performance row is not).
  */
  datatype Stepped = Next(p: Progress) | Raised(store: Store, date: Date)

  /**
    The body of the `for i, current_date in enumerate(trading_dates)` loop
    once `top_stocks` is fetched for `dates[i]`: a date with too few stocks
    is skipped, the first date is written at the base value, a later one
    chains the value through the return over the previous composition.
  */
  function Advance(p: Progress, dates: seq<Date>, i: nat, size: nat, top: seq<Candidate>): (r: Stepped)
    requires i < |dates| && size > 0
    ensures |top| < size ==> r == Next(p)
    ensures r.Raised? ==> 0 < i && |top| >= size && r.date == dates[i] && r.store.performance == p.store.performance
    ensures r.Next? && |top| >= size ==> r.p.datesProcessed == p.datesProcessed + 1
    ensures r.Next? && |top| >= size ==>
      exists x :: x in r.p.store.performance && x.date == dates[i] && x.value == (if i == 0 then BaseValue else r.p.previousValue)
    ensures i == 0 && |top| >= size ==> r.Next? && r.p.previousValue == p.previousValue
    ensures r.Next? ==> r.p.store.daily == p.store.daily && r.p.store.stocks == p.store.stocks
  {
    var date := dates[i];
    if |top| < size then Next(p)
    else
      var compositions := StoreComposition(p.store.compositions, date, top, Weight(size));
      if i == 0 then
        Next(Record(p, compositions, PerformanceRow(date, BaseValue, 0.0, 0.0), p.previousValue))
      else
        match DailyReturn(compositions, p.store.daily, dates[i - 1], date)
        case None => Raised(p.store.(compositions := compositions), date)
        case Some(r) =>
          var value := Compound(p.previousValue, r);
          Next(Record(p, compositions, LaterPoint(date, value, r), value))
  }

  /** The performance row of a later date: returns are stored as percentages. */
  function LaterPoint(date: Date, value: real, r: real): PerformanceRow
  {
    PerformanceRow(date, value, r * 100.0, (value / BaseValue - 1.0) * 100.0)
  }

  /** Stores the date's rows, moves `previous_value` and counts the date. */
  function Record(p: Progress, compositions: seq<CompositionRow>, row: PerformanceRow, value: real): Progress
  {
    Progress(p.store.(compositions := compositions, performance := StorePerformance(p.store.performance, row)),
             value, p.datesProcessed + 1)
  }

  // ---------------------------------------------------------------------------
  // The rebuild described date by date, without reading back the store.
  // ---------------------------------------------------------------------------

  /**
    What one rebuild works from: the price rows, the trading dates, the
    selection made for each date, the return computed for each date (by its
    index) and the index size.
  */
  datatype Plan = Plan(daily: seq<DailyRow>, dates: seq<Date>, tops: seq<seq<Candidate>>, returnOf: nat -> Option<real>, size: nat)

  predicate ValidPlan(pl: Plan)
  {
    |pl.tops| == |pl.dates| && pl.size > 0
  }

  /** The selections `_get_top_stocks_by_market_cap` makes for each date. */
  function Selections(daily: seq<DailyRow>, dates: seq<Date>, size: nat): (r: seq<seq<Candidate>>)
    ensures |r| == |dates|
    ensures forall i :: 0 <= i < |dates| ==> r[i] == TopStocks(daily, dates[i], size)
  {
    seq(|dates|, i requires 0 <= i < |dates| => TopStocks(daily, dates[i], size))
  }

  /** The composition rows written for date `d` with selection `top`; none when fewer than `size` stocks qualify. */
  function RowsSelected(d: Date, top: seq<Candidate>, size: nat): (r: seq<CompositionRow>)
    requires size > 0
    ensures |top| < size ==> r == []
    ensures |top| >= size ==> |r| == |top|
    ensures forall x :: x in r ==> x.date == d
  {
    if |top| >= size then CompositionRowsFor(d, top, Weight(size)) else []
  }

  /** The return `_calculate_daily_return` gives for `dates[i]`, over the rows selected for `dates[i - 1]`; none is computed for the first date. */
  function ReturnFor(daily: seq<DailyRow>, dates: seq<Date>, tops: seq<seq<Candidate>>, size: nat, i: nat): Option<real>
    requires |tops| == |dates| && size > 0 && i < |dates|
  {
    if i == 0 then Some(0.0) else ReturnOverRows(RowsSelected(dates[i - 1], tops[i - 1], size), daily, dates[i - 1], dates[i])
  }

  /** `ReturnFor` as a function of the date's index. */
  function ReturnsOf(daily: seq<DailyRow>, dates: seq<Date>, tops: seq<seq<Candidate>>, size: nat): nat -> Option<real>
    requires |tops| == |dates| && size > 0
  {
    (i: nat) => if i < |dates| then ReturnFor(daily, dates, tops, size, i) else None
  }

  /** The plan `build_index` follows over `dates`. */
  function PlanOf(daily: seq<DailyRow>, dates: seq<Date>, size: nat): (pl: Plan)
    requires size > 0
    ensures ValidPlan(pl)
  {
    var tops := Selections(daily, dates, size);
    Plan(daily, dates, tops, ReturnsOf(daily, dates, tops, size), size)
  }

  /**
    `pl` holds, for each of its first `k` dates, the selection made from
    `daily` (stated date by date, so that a proof unfolds only the dates it
    looks at).
  */
  ghost predicate SelectedUpTo(pl: Plan, daily: seq<DailyRow>, k: nat)
    requires k <= |pl.tops| && k <= |pl.dates|
  {
    k == 0 || (SelectedUpTo(pl, daily, k - 1) && pl.tops[k - 1] == TopStocks(daily, pl.dates[k - 1], pl.size))
  }

  /** `pl` records the selections `build_index` makes from `daily`. */
  ghost predicate Follows(pl: Plan, daily: seq<DailyRow>)
  {
    pl.daily == daily && |pl.tops| == |pl.dates| && SelectedUpTo(pl, daily, |pl.dates|)
  }

  lemma {:induction false} SelectedAt(pl: Plan, daily: seq<DailyRow>, k: nat, i: nat)
    requires k <= |pl.tops| && k <= |pl.dates| && SelectedUpTo(pl, daily, k) && i < k
    ensures pl.tops[i] == TopStocks(daily, pl.dates[i], pl.size)
    decreases k
  {
    if i < k - 1 {
      SelectedAt(pl, daily, k - 1, i);
    }
  }

  /** The build writes `dates[i]`: its selection has `size` stocks. */
  predicate Processed(pl: Plan, i: nat)
    requires ValidPlan(pl) && i < |pl.dates|
  {
    |pl.tops[i]| >= pl.size
  }

  /** The composition rows written for `dates[i]`; none for a skipped date. */
  function SelectionRows(pl: Plan, i: nat): (r: seq<CompositionRow>)
    requires ValidPlan(pl) && i < |pl.dates|
    ensures !Processed(pl, i) ==> r == []
    ensures forall x :: x in r ==> x.date == pl.dates[i]
  {
    RowsSelected(pl.dates[i], pl.tops[i], pl.size)
  }

  /** The return recorded for `dates[i]`. */
  function ReturnAt(pl: Plan, i: nat): Option<real>
    requires ValidPlan(pl) && 0 < i < |pl.dates|
  {
    pl.returnOf(i)
  }

  /** The return recorded for `dates[i]` is the one over the rows selected for `dates[i - 1]`. */
  ghost predicate RecordsReturn(pl: Plan, i: nat)
    requires ValidPlan(pl) && 0 < i < |pl.dates|
  {
    pl.returnOf(i) == ReturnOverRows(SelectionRows(pl, i - 1), pl.daily, pl.dates[i - 1], pl.dates[i])
  }

  /** Every return `pl` records is the one `_calculate_daily_return` gives. */
  ghost predicate RecordsReturns(pl: Plan)
  {
    ValidPlan(pl) && forall i :: 0 < i < |pl.dates| ==> RecordsReturn(pl, i)
  }

  /** The iteration for `dates[i]` raises: a processed later date whose return is not a finite number. */
  predicate Halts(pl: Plan, i: nat)
    requires ValidPlan(pl) && i < |pl.dates|
  {
    0 < i && Processed(pl, i) && ReturnAt(pl, i).None?
  }

  /** No iteration for `dates[..k]` raises. */
  predicate Completes(pl: Plan, k: nat)
    requires ValidPlan(pl) && k <= |pl.dates|
  {
    forall j :: 0 <= j < k ==> !Halts(pl, j)
  }

  lemma CompletesStep(pl: Plan, k: nat)
    requires ValidPlan(pl) && k < |pl.dates| && Completes(pl, k) && !Halts(pl, k)
    ensures Completes(pl, k + 1)
  {
    forall j | 0 <= j < k + 1 ensures !Halts(pl, j) {
      if j < k {
        assert !Halts(pl, j);
      }
    }
  }

  lemma CompletesPrefix(pl: Plan, j: nat, k: nat)
    requires ValidPlan(pl) && j <= k <= |pl.dates| && Completes(pl, k)
    ensures Completes(pl, j)
  {
    forall i | 0 <= i < j ensures !Halts(pl, i) {
      assert i < k;
    }
  }

  /** The first of `dates[i..]` whose iteration raises, or `|dates|` when none does. */
  function FirstHaltFrom(pl: Plan, i: nat): (f: nat)
    requires ValidPlan(pl) && i <= |pl.dates| && Completes(pl, i)
    ensures i <= f <= |pl.dates| && Completes(pl, f)
    ensures f < |pl.dates| ==> Halts(pl, f)
    decreases |pl.dates| - i
  {
    if i == |pl.dates| || Halts(pl, i) then i
    else
      CompletesStep(pl, i);
      FirstHaltFrom(pl, i + 1)
  }

  /** The date at which `build_index` raises, as an index into `dates`; `|dates|` when it completes. */
  function FirstHalt(pl: Plan): (f: nat)
    requires ValidPlan(pl)
    ensures f <= |pl.dates| && Completes(pl, f)
    ensures f < |pl.dates| ==> Halts(pl, f)
  {
    FirstHaltFrom(pl, 0)
  }

  /** The first raising date is the one reached with no raise before it. */
  lemma FirstHaltIs(pl: Plan, i: nat)
    requires ValidPlan(pl) && i <= |pl.dates| && Completes(pl, i)
    requires i < |pl.dates| ==> Halts(pl, i)
    ensures FirstHalt(pl) == i
  {
  }

  /** `previous_value` once `dates[..k]` are handled. */
  function ValueAfter(pl: Plan, k: nat): real
    requires ValidPlan(pl) && k <= |pl.dates| && Completes(pl, k)
  {
    if k == 0 then BaseValue
    else if k - 1 == 0 || !Processed(pl, k - 1) then ValueAfter(pl, k - 1)
    else
      assert !Halts(pl, k - 1);
      Compound(ValueAfter(pl, k - 1), ReturnAt(pl, k - 1).value)
  }

  /** The performance row written for a processed `dates[i]`. */
  function PointAt(pl: Plan, i: nat): PerformanceRow
    requires ValidPlan(pl) && i < |pl.dates| && Processed(pl, i) && Completes(pl, i + 1)
  {
    if i == 0 then PerformanceRow(pl.dates[0], BaseValue, 0.0, 0.0)
    else
      assert !Halts(pl, i);
      var r := ReturnAt(pl, i).value;
      LaterPoint(pl.dates[i], Compound(ValueAfter(pl, i), r), r)
  }

  /** The composition rows written for `dates[..k]`. */
  function WrittenCompositions(pl: Plan, k: nat): seq<CompositionRow>
    requires ValidPlan(pl) && k <= |pl.dates|
  {
    if k == 0 then [] else WrittenCompositions(pl, k - 1) + SelectionRows(pl, k - 1)
  }

  /** The performance rows written for `dates[..k]`. */
  function WrittenPerformance(pl: Plan, k: nat): seq<PerformanceRow>
    requires ValidPlan(pl) && k <= |pl.dates| && Completes(pl, k)
  {
    if k == 0 then []
    else
      var point := if Processed(pl, k - 1) then [PointAt(pl, k - 1)] else [];
      WrittenPerformance(pl, k - 1) + point
  }

  /** How many of `dates[..k]` are processed. */
  function ProcessedCount(pl: Plan, k: nat): nat
    requires ValidPlan(pl) && k <= |pl.dates|
  {
    if k == 0 then 0 else ProcessedCount(pl, k - 1) + (if Processed(pl, k - 1) then 1 else 0)
  }

  /** The loop state once `dates[..k]` are handled, starting from the cleared store `x`. */
  function StateAfter(x: Store, pl: Plan, k: nat): Progress
    requires ValidPlan(pl) && k <= |pl.dates| && Completes(pl, k)
  {
    Progress(
      x.(compositions := x.compositions + WrittenCompositions(pl, k),
         performance := x.performance + WrittenPerformance(pl, k)),
      ValueAfter(pl, k),
      ProcessedCount(pl, k))
  }

  /** The store left when the iteration for `dates[k]` raises: its composition is written, its point is not. */
  function HaltStore(x: Store, pl: Plan, k: nat): Store
    requires ValidPlan(pl) && k < |pl.dates| && Completes(pl, k)
  {
    StateAfter(x, pl, k).store.(compositions := x.compositions + WrittenCompositions(pl, k + 1))
  }

  /** `x` holds no composition or performance row on any of `dates`. */
  ghost predicate ClearedFor(x: Store, dates: seq<Date>)
  {
    && (forall r :: r in x.compositions ==> r.date !in dates)
    && (forall r :: r in x.performance ==> r.date !in dates)
  }

  /** Every composition row written for `dates[..k]` is dated before `dates[k]`. */
  lemma {:induction false} CompositionsPrecede(pl: Plan, k: nat)
    requires ValidPlan(pl) && Increasing(pl.dates) && k < |pl.dates|
    ensures forall r :: r in WrittenCompositions(pl, k) ==> Before(r.date, pl.dates[k])
  {
    if k > 0 {
      CompositionsPrecede(pl, k - 1);
      assert Before(pl.dates[k - 1], pl.dates[k]);
      forall r | r in WrittenCompositions(pl, k - 1) ensures Before(r.date, pl.dates[k]) {
        BeforeTransitive(r.date, pl.dates[k - 1], pl.dates[k]);
      }
    }
  }

  /** Every performance row written for `dates[..k]` is dated before `dates[k]`. */
  lemma {:induction false} PerformancePrecedes(pl: Plan, k: nat)
    requires ValidPlan(pl) && Increasing(pl.dates) && k < |pl.dates| && Completes(pl, k)
    ensures forall r :: r in WrittenPerformance(pl, k) ==> Before(r.date, pl.dates[k])
  {
    if k > 0 {
      PerformancePrecedes(pl, k - 1);
      assert Before(pl.dates[k - 1], pl.dates[k]);
      forall r | r in WrittenPerformance(pl, k - 1) ensures Before(r.date, pl.dates[k]) {
        BeforeTransitive(r.date, pl.dates[k - 1], pl.dates[k]);
      }
    }
  }

  /** During iteration `k > 0`, the rows the store holds for `dates[k - 1]` are the ones selected for it. */
  lemma PreviousRowsAreSelection(x: Store, pl: Plan, k: nat, appended: seq<CompositionRow>)
    requires ValidPlan(pl) && Increasing(pl.dates) && ClearedFor(x, pl.dates) && 0 < k < |pl.dates|
    requires forall r :: r in appended ==> r.date == pl.dates[k]
    ensures RowsOn(x.compositions + WrittenCompositions(pl, k) + appended, pl.dates[k - 1]) == SelectionRows(pl, k - 1)
  {
    var d := pl.dates[k - 1];
    var before := WrittenCompositions(pl, k - 1);
    var sel := SelectionRows(pl, k - 1);
    var kept := x.compositions;
    assert WrittenCompositions(pl, k) == before + sel;
    assert d in pl.dates;
    assert Before(d, pl.dates[k]);
    forall r | r in appended ensures r.date != d {
      assert Before(d, r.date);
    }
    CompositionsPrecede(pl, k - 1);
    forall r | r in before ensures r.date != d {
      assert Before(r.date, d);
    }
    RowsOnBetween(kept, before, sel, appended, d);
  }

  /** On a processed date the upserts append exactly the selection's rows. */
  lemma CompositionStepAppends(x: Store, pl: Plan, k: nat)
    requires ValidPlan(pl) && Increasing(pl.dates) && ClearedFor(x, pl.dates)
    requires k < |pl.dates| && Processed(pl, k) && UniqueBy(pl.tops[k], CandidateTicker)
    ensures StoreComposition(x.compositions + WrittenCompositions(pl, k), pl.dates[k], pl.tops[k], Weight(pl.size))
         == x.compositions + WrittenCompositions(pl, k + 1)
  {
    var d := pl.dates[k];
    var written := WrittenCompositions(pl, k);
    var before := x.compositions + written;
    CompositionsPrecede(pl, k);
    assert d in pl.dates;
    assert forall r :: r in before ==> r.date != d by {
      forall r | r in before ensures r.date != d {
        assert r in x.compositions || r in written;
      }
    }
    StoreCompositionAppends(before, d, pl.tops[k], Weight(pl.size));
    AppendAssociates(x.compositions, written, SelectionRows(pl, k));
  }

  /** On a processed date the performance upsert appends the described point. */
  lemma PerformanceStepAppends(x: Store, pl: Plan, k: nat)
    requires ValidPlan(pl) && Increasing(pl.dates) && ClearedFor(x, pl.dates)
    requires k < |pl.dates| && Processed(pl, k) && Completes(pl, k + 1)
    ensures StorePerformance(x.performance + WrittenPerformance(pl, k), PointAt(pl, k))
         == x.performance + WrittenPerformance(pl, k + 1)
  {
    var d := pl.dates[k];
    var written := WrittenPerformance(pl, k);
    var perf := x.performance + written;
    PerformancePrecedes(pl, k);
    assert d in pl.dates;
    assert forall r :: r in perf ==> r.date != d by {
      forall r | r in perf ensures r.date != d {
        assert r in x.performance || r in written;
      }
    }
    AppendAssociates(x.performance, written, [PointAt(pl, k)]);
  }

  /** Reading back the previous date's composition gives the described return. */
  lemma ReturnStepMatches(x: Store, pl: Plan, k: nat)
    requires ValidPlan(pl) && Increasing(pl.dates) && ClearedFor(x, pl.dates)
    requires 0 < k < |pl.dates| && RecordsReturn(pl, k)
    ensures DailyReturn(x.compositions + WrittenCompositions(pl, k + 1), pl.daily, pl.dates[k - 1], pl.dates[k])
         == ReturnAt(pl, k)
  {
    var sel := SelectionRows(pl, k);
    AppendAssociates(x.compositions, WrittenCompositions(pl, k), sel);
    PreviousRowsAreSelection(x, pl, k, sel);
  }

  /** A skipped date leaves the state as it is, and the description adds nothing for it. */
  lemma AdvanceSkipped(x: Store, pl: Plan, k: nat)
    requires ValidPlan(pl) && k < |pl.dates| && !Processed(pl, k) && Completes(pl, k)
    ensures Completes(pl, k + 1)
    ensures Advance(StateAfter(x, pl, k), pl.dates, k, pl.size, pl.tops[k]) == Next(StateAfter(x, pl, k + 1))
  {
    CompletesStep(pl, k);
    assert WrittenCompositions(pl, k + 1) == WrittenCompositions(pl, k) + [];
    assert WrittenPerformance(pl, k + 1) == WrittenPerformance(pl, k) + [];
  }

  /** The first trading date, when processed, is written at the base value. */
  lemma AdvanceFirst(x: Store, pl: Plan)
    requires ValidPlan(pl) && Increasing(pl.dates) && ClearedFor(x, pl.dates)
    requires 0 < |pl.dates| && Processed(pl, 0) && UniqueBy(pl.tops[0], CandidateTicker)
    ensures Completes(pl, 1)
    ensures Advance(StateAfter(x, pl, 0), pl.dates, 0, pl.size, pl.tops[0]) == Next(StateAfter(x, pl, 1))
  {
    assert !Halts(pl, 0);
    var s := StateAfter(x, pl, 0);
    var compositions := StoreComposition(s.store.compositions, pl.dates[0], pl.tops[0], Weight(pl.size));
    var row := PerformanceRow(pl.dates[0], BaseValue, 0.0, 0.0);
    FirstAdvanceRecords(s, pl.dates, pl.size, pl.tops[0]);
    CompositionStepAppends(x, pl, 0);
    assert row == PointAt(pl, 0);
    PerformanceStepAppends(x, pl, 0);
    assert Record(s, compositions, row, s.previousValue).store == StateAfter(x, pl, 1).store;
    assert ValueAfter(pl, 1) == s.previousValue && ProcessedCount(pl, 1) == s.datesProcessed + 1;
  }

  /** The first selected date records the base point, whatever state the loop is in. */
  lemma FirstAdvanceRecords(p: Progress, dates: seq<Date>, size: nat, top: seq<Candidate>)
    requires 0 < |dates| && 0 < size <= |top|
    ensures Advance(p, dates, 0, size, top)
         == Next(Record(p, StoreComposition(p.store.compositions, dates[0], top, Weight(size)),
                        PerformanceRow(dates[0], BaseValue, 0.0, 0.0), p.previousValue))
  {
  }

  /** A later processed date chains the value through the return read back from the store. */
  lemma AdvanceLater(x: Store, pl: Plan, k: nat)
    requires ValidPlan(pl) && Increasing(pl.dates) && ClearedFor(x, pl.dates) && pl.daily == x.daily
    requires 0 < k < |pl.dates| && Processed(pl, k) && UniqueBy(pl.tops[k], CandidateTicker)
    requires Completes(pl, k) && !Halts(pl, k) && RecordsReturn(pl, k)
    ensures Completes(pl, k + 1)
    ensures Advance(StateAfter(x, pl, k), pl.dates, k, pl.size, pl.tops[k]) == Next(StateAfter(x, pl, k + 1))
  {
    CompletesStep(pl, k);
    var s := StateAfter(x, pl, k);
    var compositions := StoreComposition(s.store.compositions, pl.dates[k], pl.tops[k], Weight(pl.size));
    CompositionStepAppends(x, pl, k);
    assert compositions == x.compositions + WrittenCompositions(pl, k + 1);
    ReturnStepMatches(x, pl, k);
    var r := DailyReturn(compositions, s.store.daily, pl.dates[k - 1], pl.dates[k]);
    assert r == ReturnAt(pl, k) && r.Some?;
    var value := Compound(s.previousValue, r.value);
    assert value == ValueAfter(pl, k + 1);
    var row := LaterPoint(pl.dates[k], value, r.value);
    assert row == PointAt(pl, k);
    PerformanceStepAppends(x, pl, k);
    assert Advance(s, pl.dates, k, pl.size, pl.tops[k]) == Next(Record(s, compositions, row, value));
    assert Record(s, compositions, row, value).store == StateAfter(x, pl, k + 1).store;
    assert ProcessedCount(pl, k + 1) == s.datesProcessed + 1;
    assert Record(s, compositions, row, value) == StateAfter(x, pl, k + 1);
  }

  /** A later processed date whose return is not a finite number raises once its composition is written. */
  lemma AdvanceHalts(x: Store, pl: Plan, k: nat)
    requires ValidPlan(pl) && Increasing(pl.dates) && ClearedFor(x, pl.dates) && pl.daily == x.daily
    requires k < |pl.dates| && UniqueBy(pl.tops[k], CandidateTicker)
    requires Completes(pl, k) && Halts(pl, k) && RecordsReturn(pl, k)
    ensures Advance(StateAfter(x, pl, k), pl.dates, k, pl.size, pl.tops[k]) == Raised(HaltStore(x, pl, k), pl.dates[k])
  {
    var s := StateAfter(x, pl, k);
    var compositions := StoreComposition(s.store.compositions, pl.dates[k], pl.tops[k], Weight(pl.size));
    CompositionStepAppends(x, pl, k);
    assert compositions == x.compositions + WrittenCompositions(pl, k + 1);
    ReturnStepMatches(x, pl, k);
    assert DailyReturn(compositions, s.store.daily, pl.dates[k - 1], pl.dates[k]).None?;
  }

  /**
    One loop iteration carries the described state for `dates[..k]` to the
    one for `dates[..k + 1]`, or raises with the described store.
  */
  lemma StepMatches(x: Store, pl: Plan, k: nat)
    requires ValidPlan(pl) && Increasing(pl.dates) && ClearedFor(x, pl.dates)
    requires pl.daily == x.daily && UniqueBy(x.daily, DailyKey)
    requires k < |pl.dates| && pl.tops[k] == TopStocks(x.daily, pl.dates[k], pl.size) && Completes(pl, k)
    requires 0 < k ==> RecordsReturn(pl, k)
    ensures Halts(pl, k) ==> Advance(StateAfter(x, pl, k), pl.dates, k, pl.size, pl.tops[k]) == Raised(HaltStore(x, pl, k), pl.dates[k])
    ensures !Halts(pl, k) ==> Completes(pl, k + 1)
    ensures !Halts(pl, k) ==> Advance(StateAfter(x, pl, k), pl.dates, k, pl.size, pl.tops[k]) == Next(StateAfter(x, pl, k + 1))
  {
    if Halts(pl, k) {
      AdvanceHalts(x, pl, k);
    } else if !Processed(pl, k) {
      AdvanceSkipped(x, pl, k);
    } else if k == 0 {
      AdvanceFirst(x, pl);
    } else {
      AdvanceLater(x, pl, k);
    }
  }

  /** Before the loop: the store as cleared, `previous_value = self.base_value`, nothing processed. */
  lemma StartMatches(x: Store, pl: Plan)
    requires ValidPlan(pl)
    ensures Completes(pl, 0)
    ensures StateAfter(x, pl, 0) == Progress(x, BaseValue, 0)
  {
    assert x.compositions + [] == x.compositions;
    assert x.performance + [] == x.performance;
  }

  /**
    What the loop relies on: `pl` follows the price table of the cleared
    store `x`, its dates ascend and the price table is keyed by (ticker, date).
  */
  ghost predicate Ready(x: Store, pl: Plan)
  {
    ValidPlan(pl) && Follows(pl, x.daily) && RecordsReturns(pl) && Increasing(pl.dates) && ClearedFor(x, pl.dates) && UniqueBy(x.daily, DailyKey)
  }

  /** One pass of the loop body from the described state `p` for `dates[..i]`. */
  method StepOnce(p: Progress, dates: seq<Date>, i: nat, size: nat, ghost x: Store, ghost pl: Plan) returns (q: Stepped)
    requires Ready(x, pl) && pl.dates == dates && pl.size == size && i < |dates| && Completes(pl, i)
    requires p == StateAfter(x, pl, i)
    ensures Halts(pl, i) ==> q == Raised(HaltStore(x, pl, i), dates[i])
    ensures !Halts(pl, i) ==> Completes(pl, i + 1) && q == Next(StateAfter(x, pl, i + 1))
  {
    SelectedAt(pl, x.daily, |dates|, i);
    if 0 < i {
      assert RecordsReturn(pl, i);
    }
    StepMatches(x, pl, i);
    q := Advance(p, dates, i, size, TopStocks(p.store.daily, dates[i], size));
  }

  /** How `build_index` ends: the count it reports, the `ValueError` of a range without trading dates, or the error of a return that is not a finite number. */
  datatype BuildOutcome = Built(datesProcessed: nat) | NoTradingData | ReturnNotFinite(date: Date)

  /**
    How the walk over the dates of `pl` from the cleared store `x` ends:
    completed, with the described state for all dates, or raised at the
    first date whose iteration raises.
  */
  function WalkEnd(x: Store, pl: Plan): (Store, BuildOutcome)
    requires ValidPlan(pl)
  {
    var f := FirstHalt(pl);
    if f == |pl.dates| then
      var p := StateAfter(x, pl, f);
      (p.store, Built(p.datesProcessed))
    else
      (HaltStore(x, pl, f), ReturnNotFinite(pl.dates[f]))
  }

  /**
    The `for` loop of `build_index` over the trading dates of `pl`, run on the
    cleared store `x`: it ends as the date-by-date description says.
  */
  method RunLoop(x: Store, dates: seq<Date>, size: nat, ghost pl: Plan) returns (r: Store, outcome: BuildOutcome)
    requires Ready(x, pl) && pl.dates == dates && pl.size == size
    ensures (r, outcome) == WalkEnd(x, pl)
  {
    var p := Progress(x, BaseValue, 0);
    StartMatches(x, pl);
    var i := 0;
    while i < |dates|
      invariant 0 <= i <= |dates| && Completes(pl, i)
      invariant p == StateAfter(x, pl, i)
    {
      var q := StepOnce(p, dates, i, size, x, pl);
      if q.Raised? {
        FirstHaltIs(pl, i);
        return q.store, ReturnNotFinite(q.date);
      }
      p := q.p;
      i := i + 1;
    }
    FirstHaltIs(pl, |dates|);
    r, outcome := p.store, Built(p.datesProcessed);
  }

  // ---------------------------------------------------------------------------
  // build_index as a whole.
  // ---------------------------------------------------------------------------

  /** The plan built from `daily` selects, for every date, what `_get_top_stocks_by_market_cap` returns. */
  lemma {:induction false} PlanSelectsUpTo(daily: seq<DailyRow>, dates: seq<Date>, size: nat, k: nat)
    requires size > 0 && k <= |dates|
    ensures SelectedUpTo(PlanOf(daily, dates, size), daily, k)
  {
    if k > 0 {
      PlanSelectsUpTo(daily, dates, size, k - 1);
    }
  }

  /** The plan built from `daily` records, for every later date, the return over the previous date's selection. */
  lemma PlanRecordsReturns(daily: seq<DailyRow>, dates: seq<Date>, size: nat)
    requires size > 0
    ensures RecordsReturns(PlanOf(daily, dates, size))
  {
    var pl := PlanOf(daily, dates, size);
    forall i | 0 < i < |dates| ensures RecordsReturn(pl, i) {
      assert SelectionRows(pl, i - 1) == RowsSelected(dates[i - 1], pl.tops[i - 1], size);
    }
  }

  /** After `_clear_index_data` the loop's assumptions hold for the range's trading dates. */
  lemma ReadyAfterClear(s: Store, start: Date, end: Date, size: nat)
    requires size > 0 && UniqueBy(s.daily, DailyKey)
    ensures Ready(ClearRange(s, start, end), PlanOf(s.daily, TradingDates(s.daily, start, end), size))
  {
    var dates := TradingDates(s.daily, start, end);
    PlanSelectsUpTo(s.daily, dates, size, |dates|);
    PlanRecordsReturns(s.daily, dates, size);
    ClearedAfterClear(s, start, end);
  }

  /** After `_clear_index_data` no composition or performance row lies on a trading date of the range. */
  lemma ClearedAfterClear(s: Store, start: Date, end: Date)
    ensures ClearedFor(ClearRange(s, start, end), TradingDates(s.daily, start, end))
  {
    var x := ClearRange(s, start, end);
    var dates := TradingDates(s.daily, start, end);
    forall r | r in x.compositions ensures r.date !in dates {
      assert !InRange(r.date, start, end);
    }
    forall r | r in x.performance ensures r.date !in dates {
      assert !InRange(r.date, start, end);
    }
  }

  /**
    The store `build_index(start, end)` leaves and what it reports, stated
    date by date: the range is cleared first, then each trading date adds
    what the description gives for it.
  */
  function Described(s: Store, start: Date, end: Date, size: nat): (Store, BuildOutcome)
    requires size > 0
  {
    var x := ClearRange(s, start, end);
    var dates := TradingDates(s.daily, start, end);
    if dates == [] then (x, NoTradingData)
    else WalkEnd(x, PlanOf(s.daily, dates, size))
  }

  /**
    `build_index(start, end)` with the index size `size`: clears the range,
    reads its trading dates, fails on an empty range (after the clear) and
    otherwise runs the loop; it ends as the date-by-date description says.
  */
  method Rebuild(s: Store, start: Date, end: Date, size: nat) returns (r: Store, outcome: BuildOutcome)
    requires size > 0 && UniqueBy(s.daily, DailyKey)
    ensures (r, outcome) == Described(s, start, end, size)
    ensures outcome == NoTradingData <==> TradingDates(s.daily, start, end) == []
  {
    var x := ClearRange(s, start, end);
    var dates := TradingDates(s.daily, start, end);
    if dates == [] {
      return x, NoTradingData;
    }
    ghost var pl := PlanOf(s.daily, dates, size);
    ReadyAfterClear(s, start, end, size);
    r, outcome := RunLoop(x, dates, size, pl);
  }
}
