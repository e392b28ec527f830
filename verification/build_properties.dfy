/**
  What a rebuild leaves in the tables, read off the date-by-date description
  that `IndexBuild.Rebuild` is proved to follow: which dates get rows, what
  those rows hold, how the index value is chained, and what stays untouched.
*/
module RebuildProperties {
  import opened Wrappers
  import opened Seqs
  import opened Dates
  import opened Tables
  import opened Selection
  import opened IndexBuild

  // ---------------------------------------------------------------------------
  // Where the description writes.
  // ---------------------------------------------------------------------------

  /** Every composition row written for `dates[..k]` is dated on one of the plan's dates. */
  lemma {:induction false} WrittenCompositionsInPlan(pl: Plan, k: nat)
    requires ValidPlan(pl) && k <= |pl.dates|
    ensures forall r :: r in WrittenCompositions(pl, k) ==> r.date in pl.dates
  {
    if k > 0 {
      WrittenCompositionsInPlan(pl, k - 1);
      assert pl.dates[k - 1] in pl.dates;
    }
  }

  /** Every performance row written for `dates[..k]` is dated on one of the plan's dates. */
  lemma {:induction false} WrittenPerformanceInPlan(pl: Plan, k: nat)
    requires ValidPlan(pl) && k <= |pl.dates| && Completes(pl, k)
    ensures forall r :: r in WrittenPerformance(pl, k) ==> r.date in pl.dates
  {
    if k > 0 {
      WrittenPerformanceInPlan(pl, k - 1);
      assert pl.dates[k - 1] in pl.dates;
    }
  }

  /** A query on `dates[i]` over the composition rows written for `dates[..n]`, `i < n`, finds the rows selected for it. */
  lemma {:induction false} WrittenCompositionsOn(pl: Plan, i: nat, n: nat)
    requires ValidPlan(pl) && Increasing(pl.dates) && i < n <= |pl.dates|
    ensures RowsOn(WrittenCompositions(pl, n), pl.dates[i]) == SelectionRows(pl, i)
    decreases n
  {
    var d := pl.dates[i];
    var prev := WrittenCompositions(pl, n - 1);
    var last := SelectionRows(pl, n - 1);
    assert WrittenCompositions(pl, n) == prev + last;
    RowsOnConcat(prev, last, d);
    if i < n - 1 {
      WrittenCompositionsOn(pl, i, n - 1);
      assert Before(d, pl.dates[n - 1]);
      forall r | r in last ensures r.date != d {
        assert r.date == pl.dates[n - 1];
      }
      RowsOnNone(last, d);
      assert SelectionRows(pl, i) + [] == SelectionRows(pl, i);
    } else {
      CompositionsPrecede(pl, i);
      forall r | r in prev ensures r.date != d {
        assert Before(r.date, d);
      }
      RowsOnNone(prev, d);
      RowsOnAll(last, d);
      assert [] + last == last;
    }
  }

  /** The performance rows written for `dates[..i + 1]` hold, for `dates[i]`, its point if it was processed. */
  lemma PointOfLastDate(pl: Plan, i: nat)
    requires ValidPlan(pl) && Increasing(pl.dates) && i < |pl.dates| && Completes(pl, i + 1)
    ensures PerformanceOn(WrittenPerformance(pl, i + 1), pl.dates[i]) == if Processed(pl, i) then [PointAt(pl, i)] else []
  {
    var d := pl.dates[i];
    var prev := WrittenPerformance(pl, i);
    var last := if Processed(pl, i) then [PointAt(pl, i)] else [];
    assert WrittenPerformance(pl, i + 1) == prev + last;
    PerformancePrecedes(pl, i);
    forall r | r in prev ensures r.date != d {
      assert Before(r.date, d);
    }
    PerformanceOnNone(prev, d);
    PerformanceOnAll(last, d);
    PerformanceOnConcat(prev, last, d);
    assert [] + last == last;
  }

  /** The point written for `dates[n - 1]`, if any, adds nothing to a query on an earlier `dates[i]`. */
  lemma PointStepAddsNothing(pl: Plan, i: nat, n: nat)
    requires ValidPlan(pl) && Increasing(pl.dates) && i < n - 1 && n <= |pl.dates| && Completes(pl, n)
    ensures PerformanceOn(WrittenPerformance(pl, n), pl.dates[i]) == PerformanceOn(WrittenPerformance(pl, n - 1), pl.dates[i])
  {
    var d := pl.dates[i];
    var point := if Processed(pl, n - 1) then [PointAt(pl, n - 1)] else [];
    assert WrittenPerformance(pl, n) == WrittenPerformance(pl, n - 1) + point;
    assert Before(d, pl.dates[n - 1]);
    forall r | r in point ensures r.date != d {
      assert r.date == pl.dates[n - 1];
    }
    PerformanceOnNone(point, d);
    PerformanceOnConcat(WrittenPerformance(pl, n - 1), point, d);
    assert PerformanceOn(WrittenPerformance(pl, n - 1), d) + [] == PerformanceOn(WrittenPerformance(pl, n - 1), d);
  }

  /** A query on `dates[i]` over the performance rows written for `dates[..n]`, `i < n`, finds its point if it was processed. */
  lemma {:induction false} WrittenPerformanceOn(pl: Plan, i: nat, n: nat)
    requires ValidPlan(pl) && Increasing(pl.dates) && i < n <= |pl.dates| && Completes(pl, n)
    ensures PerformanceOn(WrittenPerformance(pl, n), pl.dates[i]) == if Processed(pl, i) then [PointAt(pl, i)] else []
    decreases n
  {
    if i < n - 1 {
      WrittenPerformanceOn(pl, i, n - 1);
      PointStepAddsNothing(pl, i, n);
    } else {
      PointOfLastDate(pl, i);
    }
  }

  /** No row written for `dates[..n]` is dated on a later `dates[i]`. */
  lemma WrittenBeforeLater(pl: Plan, i: nat, n: nat)
    requires ValidPlan(pl) && Increasing(pl.dates) && n <= i < |pl.dates|
    ensures forall r :: r in WrittenCompositions(pl, n) ==> r.date != pl.dates[i]
    ensures Completes(pl, n) ==> forall r :: r in WrittenPerformance(pl, n) ==> r.date != pl.dates[i]
  {
    var d := pl.dates[i];
    assert n < i ==> Before(pl.dates[n], d);
    CompositionsPrecede(pl, n);
    forall r | r in WrittenCompositions(pl, n) ensures r.date != d {
      assert Before(r.date, pl.dates[n]);
    }
    if Completes(pl, n) {
      PerformancePrecedes(pl, n);
      forall r | r in WrittenPerformance(pl, n) ensures r.date != d {
        assert Before(r.date, pl.dates[n]);
      }
    }
  }

  /** After the walk over `dates[..n]`, the composition rows on `dates[i]` are the ones selected for it if `i < n`, and none otherwise. */
  lemma CompositionOfDate(x: Store, pl: Plan, i: nat, n: nat)
    requires ValidPlan(pl) && Increasing(pl.dates) && ClearedFor(x, pl.dates) && i < |pl.dates| && n <= |pl.dates|
    ensures RowsOn(x.compositions + WrittenCompositions(pl, n), pl.dates[i]) == if i < n then SelectionRows(pl, i) else []
  {
    var d := pl.dates[i];
    var written := WrittenCompositions(pl, n);
    assert d in pl.dates;
    forall r | r in x.compositions ensures r.date != d {
      assert r.date !in pl.dates;
    }
    RowsOnNone(x.compositions, d);
    RowsOnConcat(x.compositions, written, d);
    if i < n {
      WrittenCompositionsOn(pl, i, n);
      assert [] + SelectionRows(pl, i) == SelectionRows(pl, i);
    } else {
      WrittenBeforeLater(pl, i, n);
      RowsOnNone(written, d);
    }
  }

  /** After the walk over `dates[..n]`, `dates[i]` has its point if `i < n` and it was processed, and no performance row otherwise. */
  lemma PerformanceOfDate(x: Store, pl: Plan, i: nat, n: nat)
    requires ValidPlan(pl) && Increasing(pl.dates) && ClearedFor(x, pl.dates) && i < |pl.dates| && n <= |pl.dates|
    requires Completes(pl, n)
    ensures PerformanceOn(x.performance + WrittenPerformance(pl, n), pl.dates[i])
         == if i < n && Processed(pl, i) then [PointAt(pl, i)] else []
  {
    var d := pl.dates[i];
    var written := WrittenPerformance(pl, n);
    assert d in pl.dates;
    forall r | r in x.performance ensures r.date != d {
      assert r.date !in pl.dates;
    }
    PerformanceOnNone(x.performance, d);
    PerformanceOnConcat(x.performance, written, d);
    if i < n {
      WrittenPerformanceOn(pl, i, n);
      var point := if Processed(pl, i) then [PointAt(pl, i)] else [];
      assert [] + point == point;
    } else {
      WrittenBeforeLater(pl, i, n);
      PerformanceOnNone(written, d);
    }
  }

  // ---------------------------------------------------------------------------
  // The index value.
  // ---------------------------------------------------------------------------

  /** With positive closes every daily return exceeds -1, so `previous_value` stays positive. */
  lemma {:induction false} ValuePositive(pl: Plan, k: nat)
    requires RecordsReturns(pl) && k <= |pl.dates| && Completes(pl, k) && PositiveCloses(pl.daily)
    ensures ValueAfter(pl, k) > 0.0
  {
    if k > 0 {
      CompletesPrefix(pl, k - 1, k);
      ValuePositive(pl, k - 1);
      if k - 1 > 0 && Processed(pl, k - 1) {
        ReturnAboveMinusOne(pl, k - 1);
        var r := ReturnAt(pl, k - 1);
        assert ValueAfter(pl, k) == Compound(ValueAfter(pl, k - 1), r.value);
      }
    }
  }

  /** With positive closes a recorded return is a number above -1. */
  lemma ReturnAboveMinusOne(pl: Plan, i: nat)
    requires RecordsReturns(pl) && 0 < i < |pl.dates| && PositiveCloses(pl.daily)
    ensures ReturnAt(pl, i).Some? && ReturnAt(pl, i).value > -1.0
  {
    assert RecordsReturn(pl, i);
  }

  /** `previous_value` is the value of the last performance row written, or the base value before any. */
  lemma {:induction false} ValueIsLastWritten(pl: Plan, k: nat)
    requires ValidPlan(pl) && k <= |pl.dates| && Completes(pl, k)
    ensures var w := WrittenPerformance(pl, k);
      && (w == [] ==> ValueAfter(pl, k) == BaseValue)
      && (w != [] ==> ValueAfter(pl, k) == w[|w| - 1].value)
  {
    if k > 0 {
      ValueIsLastWritten(pl, k - 1);
    }
  }

  /** Every point written keeps `cumulative_return = (value / base_value - 1) * 100`. */
  lemma {:induction false} CumulativeMatchesValue(pl: Plan, k: nat)
    requires ValidPlan(pl) && k <= |pl.dates| && Completes(pl, k)
    ensures forall p :: p in WrittenPerformance(pl, k) ==> p.cumulativeReturn == (p.value / BaseValue - 1.0) * 100.0
  {
    if k > 0 {
      CumulativeMatchesValue(pl, k - 1);
      var prev := WrittenPerformance(pl, k - 1);
      var point := if Processed(pl, k - 1) then [PointAt(pl, k - 1)] else [];
      assert WrittenPerformance(pl, k) == prev + point;
      if Processed(pl, k - 1) {
        PointCumulative(pl, k - 1);
      }
      forall p: PerformanceRow | p in prev + point
        ensures p.cumulativeReturn == (p.value / BaseValue - 1.0) * 100.0
      {
        if p !in prev {
          assert p == PointAt(pl, k - 1);
        }
      }
    }
  }

  lemma PointCumulative(pl: Plan, i: nat)
    requires ValidPlan(pl) && i < |pl.dates| && Processed(pl, i) && Completes(pl, i + 1)
    ensures PointAt(pl, i).cumulativeReturn == (PointAt(pl, i).value / BaseValue - 1.0) * 100.0
  {
    if i == 0 {
      assert PointAt(pl, i).value / BaseValue == 1.0;
    }
  }

  /** `dates_processed` is the number of performance rows written. */
  lemma {:induction false} CountIsPoints(pl: Plan, k: nat)
    requires ValidPlan(pl) && k <= |pl.dates| && Completes(pl, k)
    ensures ProcessedCount(pl, k) == |WrittenPerformance(pl, k)|
  {
    if k > 0 {
      CountIsPoints(pl, k - 1);
    }
  }

  /**
    A date right after a skipped one gets a zero return: the skipped date's
    composition was cleared and not rewritten, so the value carries over.
  */
  lemma SkippedPreviousGivesZero(pl: Plan, i: nat)
    requires ValidPlan(pl) && 0 < i < |pl.dates| && !Processed(pl, i - 1) && Completes(pl, i) && RecordsReturn(pl, i)
    ensures ReturnAt(pl, i) == Some(0.0) && Completes(pl, i + 1)
    ensures Processed(pl, i) ==> PointAt(pl, i).value == ValueAfter(pl, i) && PointAt(pl, i).dailyReturn == 0.0
  {
    assert SelectionRows(pl, i - 1) == [];
  }

  /** Before the first processed date, `previous_value` is still the base value. */
  lemma {:induction false} BaseUntilFirstProcessed(pl: Plan, k: nat)
    requires ValidPlan(pl) && k <= |pl.dates|
    requires forall j :: 0 <= j < k ==> !Processed(pl, j)
    ensures Completes(pl, k)
    ensures ValueAfter(pl, k) == BaseValue
    ensures WrittenPerformance(pl, k) == []
  {
    if k > 0 {
      BaseUntilFirstProcessed(pl, k - 1);
    }
  }

  /**
    The first date that is processed is written at `(base_value, 0, 0)`,
    whether or not it is the first trading date: when earlier dates were
    skipped, its previous date was skipped too, so its return is 0.
  */
  lemma FirstPointIsBase(pl: Plan, i: nat)
    requires RecordsReturns(pl) && i < |pl.dates| && Processed(pl, i)
    requires forall j :: 0 <= j < i ==> !Processed(pl, j)
    ensures Completes(pl, i + 1)
    ensures PointAt(pl, i) == PerformanceRow(pl.dates[i], BaseValue, 0.0, 0.0)
  {
    if i > 0 {
      BaseUntilFirstProcessed(pl, i);
      assert RecordsReturn(pl, i);
      SkippedPreviousGivesZero(pl, i);
      assert BaseValue / BaseValue == 1.0;
    }
  }

  // ---------------------------------------------------------------------------
  // What each processed date holds.
  // ---------------------------------------------------------------------------

  /** The candidate a composition row records. */
  function CandidateOf(r: CompositionRow): Candidate
  {
    Candidate(r.ticker, r.marketCap)
  }

  /** In the plan `build_index` follows, a date is processed exactly when it has `size` candidates. */
  lemma SelectionOfDate(daily: seq<DailyRow>, dates: seq<Date>, size: nat, i: nat)
    requires size > 0 && i < |dates|
    ensures var pl := PlanOf(daily, dates, size);
      && (Processed(pl, i) <==> |CandidatesOn(daily, dates[i])| >= size)
      && SelectionRows(pl, i) == if Processed(pl, i) then CompositionRowsFor(dates[i], TopStocks(daily, dates[i], size), Weight(size)) else []
  {
    var pl := PlanOf(daily, dates, size);
    assert pl.tops[i] == TopStocks(daily, dates[i], size);
  }

  /**
    A processed date holds exactly `size` rows, one per selected stock in
    descending market cap order, with distinct tickers, positive market caps
    and the weight `1 / size`.
  */
  lemma SelectedRows(daily: seq<DailyRow>, d: Date, size: nat)
    requires size > 0 && UniqueBy(daily, DailyKey) && |CandidatesOn(daily, d)| >= size
    ensures var rows := CompositionRowsFor(d, TopStocks(daily, d, size), Weight(size));
      && |rows| == size
      && (forall k :: 0 <= k < |rows| ==> rows[k].date == d && rows[k].weight == 1.0 / size as real)
      && (forall k :: 0 <= k < |rows| ==> rows[k].marketCap > 0.0 && CandidateOf(rows[k]) in CandidatesOn(daily, d))
      && (forall j, k :: 0 <= j < k < |rows| ==> rows[j].ticker != rows[k].ticker)
      && (forall j, k :: 0 <= j < k < |rows| ==> rows[j].marketCap >= rows[k].marketCap)
  {
    var top := TopStocks(daily, d, size);
    var rows := CompositionRowsFor(d, top, Weight(size));
    forall k | 0 <= k < |rows| ensures rows[k] == CompositionRow(d, top[k].ticker, Weight(size), top[k].marketCap) {
      CompositionRowsForAt(d, top, Weight(size), k);
    }
    forall k | 0 <= k < |rows| ensures rows[k].marketCap > 0.0 && CandidateOf(rows[k]) in CandidatesOn(daily, d) {
      assert top[k] in top;
      assert CandidateOf(rows[k]) == top[k];
    }
  }

  /** No candidate left out of a processed date has a larger market cap than a stock it holds. */
  lemma SelectedRowsDominate(daily: seq<DailyRow>, d: Date, size: nat)
    requires size > 0 && |CandidatesOn(daily, d)| >= size
    ensures var rows := CompositionRowsFor(d, TopStocks(daily, d, size), Weight(size));
      forall c, k :: c in CandidatesOn(daily, d) && (forall j :: 0 <= j < |rows| ==> CandidateOf(rows[j]) != c) && 0 <= k < |rows|
        ==> c.marketCap <= rows[k].marketCap
  {
    var top := TopStocks(daily, d, size);
    var rows := CompositionRowsFor(d, top, Weight(size));
    TopStocksDominates(daily, d, size);
    forall k | 0 <= k < |rows| ensures CandidateOf(rows[k]) == top[k] {
      CompositionRowsForAt(d, top, Weight(size), k);
    }
    forall c, k | c in CandidatesOn(daily, d) && (forall j :: 0 <= j < |rows| ==> CandidateOf(rows[j]) != c) && 0 <= k < |rows|
      ensures c.marketCap <= rows[k].marketCap
    {
      forall m | 0 <= m < |top| ensures top[m] != c {
        assert CandidateOf(rows[m]) != c;
      }
      assert c !in top;
      assert top[k] in top;
    }
  }

  function RowWeight(r: CompositionRow): real
  {
    r.weight
  }

  /** Every row written for a selection carries the one weight given. */
  lemma {:induction false} RowsCarryWeight(d: Date, top: seq<Candidate>, weight: real)
    ensures forall x :: x in CompositionRowsFor(d, top, weight) ==> RowWeight(x) == weight
  {
    if top != [] {
      RowsCarryWeight(d, top[1..], weight);
    }
  }

  lemma EqualWeightsTotal(size: nat)
    requires size > 0
    ensures size as real * Weight(size) == 1.0
  {
  }

  /** The weights of a processed date sum to 1. */
  lemma WeightsSumToOne(daily: seq<DailyRow>, d: Date, size: nat)
    requires size > 0 && |CandidatesOn(daily, d)| >= size
    ensures Sum(CompositionRowsFor(d, TopStocks(daily, d, size), Weight(size)), RowWeight) == 1.0
  {
    var top := TopStocks(daily, d, size);
    assert |top| == size;
    SelectionWeightsTotal(d, top, size);
  }

  /** The rows written for a selection of `size` stocks carry weights that sum to 1. */
  lemma SelectionWeightsTotal(d: Date, top: seq<Candidate>, size: nat)
    requires 0 < size == |top|
    ensures Sum(CompositionRowsFor(d, top, Weight(size)), RowWeight) == 1.0
  {
    var rows := CompositionRowsFor(d, top, Weight(size));
    RowsCarryWeight(d, top, Weight(size));
    SumConstant(rows, RowWeight, Weight(size));
    EqualWeightsTotal(size);
  }

  /**
    The daily return of a date whose previous trading date was processed:
    the sum of the price relatives over the previous composition divided by
    its size, `size`.
  */
  lemma ReturnOverPreviousComposition(daily: seq<DailyRow>, dates: seq<Date>, size: nat, i: nat)
    requires size > 0 && 0 < i < |dates| && |CandidatesOn(daily, dates[i - 1])| >= size
    ensures var pl := PlanOf(daily, dates, size);
      var s := ReturnSum(TickersOf(SelectionRows(pl, i - 1)), daily, dates[i - 1], dates[i]);
      && (ReturnAt(pl, i).Some? <==> s.Some?)
      && (s.Some? ==> ReturnAt(pl, i).value == s.value / (size as real))
  {
    var pl := PlanOf(daily, dates, size);
    assert |SelectionRows(pl, i - 1)| == size by {
      SelectionOfDate(daily, dates, size, i - 1);
    }
    assert RecordsReturn(pl, i) by {
      PlanRecordsReturns(daily, dates, size);
    }
  }

  // ---------------------------------------------------------------------------
  // build_index as a whole.
  // ---------------------------------------------------------------------------

  /** The walk writes only on its plan's dates. */
  lemma WalkWritesInPlan(x: Store, pl: Plan)
    requires ValidPlan(pl)
    ensures var r := WalkEnd(x, pl).0;
      && r.stocks == x.stocks && r.daily == x.daily
      && (forall c :: c in r.compositions ==> c in x.compositions || c.date in pl.dates)
      && (forall c :: c in x.compositions ==> c in r.compositions)
      && (forall q :: q in r.performance ==> q in x.performance || q.date in pl.dates)
      && (forall q :: q in x.performance ==> q in r.performance)
  {
    var f := FirstHalt(pl);
    var n := if f == |pl.dates| then f else f + 1;
    WrittenCompositionsInPlan(pl, n);
    WrittenPerformanceInPlan(pl, f);
  }

  /** The walk leaves the composition rows of every date it reached, the one it raises on included. */
  lemma WalkCompositions(x: Store, pl: Plan)
    requires ValidPlan(pl)
    ensures var f := FirstHalt(pl);
      WalkEnd(x, pl).0.compositions == x.compositions + WrittenCompositions(pl, if f == |pl.dates| then f else f + 1)
  {
  }

  /** Rows dated outside `[start, end]`, the price table and the stock metadata are as before. */
  lemma DescribedKeepsOutside(s: Store, start: Date, end: Date, size: nat)
    requires size > 0
    ensures var r := Described(s, start, end, size).0;
      && r.stocks == s.stocks && r.daily == s.daily
      && (forall x: CompositionRow :: !InRange(x.date, start, end) ==> (x in r.compositions <==> x in s.compositions))
      && (forall x: PerformanceRow :: !InRange(x.date, start, end) ==> (x in r.performance <==> x in s.performance))
  {
    var dates := TradingDates(s.daily, start, end);
    if dates != [] {
      WalkWritesInPlan(ClearRange(s, start, end), PlanOf(s.daily, dates, size));
    }
  }

  /**
    A range without trading dates reports the error, yet the range has
    already been cleared of composition and performance rows.
  */
  lemma DescribedEmptyRange(s: Store, start: Date, end: Date, size: nat)
    requires size > 0 && TradingDates(s.daily, start, end) == []
    ensures var (r, outcome) := Described(s, start, end, size);
      && outcome == NoTradingData
      && (forall x :: x in r.compositions ==> !InRange(x.date, start, end))
      && (forall x :: x in r.performance ==> !InRange(x.date, start, end))
  {
  }

  /** A date of the range without price rows ends with no composition and no performance row. */
  lemma DescribedNothingOff(s: Store, start: Date, end: Date, size: nat, d: Date)
    requires size > 0 && InRange(d, start, end) && d !in TradingDates(s.daily, start, end)
    ensures var r := Described(s, start, end, size).0;
      RowsOn(r.compositions, d) == [] && PerformanceOn(r.performance, d) == []
  {
    var dates := TradingDates(s.daily, start, end);
    var r := Described(s, start, end, size).0;
    if dates != [] {
      WalkWritesInPlan(ClearRange(s, start, end), PlanOf(s.daily, dates, size));
    }
    RowsOnNone(r.compositions, d);
    PerformanceOnNone(r.performance, d);
  }

  /** The index into the trading dates at which the rebuild of `[start, end]` raises; their count when it completes. */
  function HaltIndex(s: Store, start: Date, end: Date, size: nat): (f: nat)
    requires size > 0
    ensures f <= |TradingDates(s.daily, start, end)|
  {
    FirstHalt(PlanOf(s.daily, TradingDates(s.daily, start, end), size))
  }

  /**
    The rebuild raises exactly when some trading date, processed and not the
    first, has a return that is not a finite number; it raises at the first
    such date, and a completed rebuild reports a count.
  */
  lemma DescribedOutcome(s: Store, start: Date, end: Date, size: nat)
    requires size > 0 && TradingDates(s.daily, start, end) != []
    ensures var dates := TradingDates(s.daily, start, end);
      var pl := PlanOf(s.daily, dates, size);
      var (r, outcome) := Described(s, start, end, size);
      var f := HaltIndex(s, start, end, size);
      && (outcome.Built? <==> Completes(pl, |dates|))
      && (outcome.ReturnNotFinite? <==> f < |dates|)
      && (f < |dates| ==> outcome == ReturnNotFinite(dates[f]) && Halts(pl, f))
      && outcome != NoTradingData
  {
    var dates := TradingDates(s.daily, start, end);
    var pl := PlanOf(s.daily, dates, size);
    var f := FirstHalt(pl);
    if f < |dates| {
      assert !Completes(pl, |dates|) by {
        assert Halts(pl, f);
      }
    }
  }

  /** With positive closes no return is undefined, so a range with trading dates always completes. */
  lemma PositiveClosesComplete(s: Store, start: Date, end: Date, size: nat)
    requires size > 0 && TradingDates(s.daily, start, end) != [] && PositiveCloses(s.daily)
    ensures Described(s, start, end, size).1.Built?
  {
    var dates := TradingDates(s.daily, start, end);
    var pl := PlanOf(s.daily, dates, size);
    var f := FirstHalt(pl);
    if f < |dates| {
      PlanRecordsReturns(s.daily, dates, size);
      ReturnAboveMinusOne(pl, f);
      assert false;
    }
  }

  /**
    After the rebuild, trading date `dates[i]` holds the top `size` rows when
    it has `size` candidates and the walk reached it, and no composition row
    otherwise; the date the rebuild raises on keeps its rows.
  */
  lemma DescribedCompositionAt(s: Store, start: Date, end: Date, size: nat, i: nat)
    requires size > 0 && UniqueBy(s.daily, DailyKey) && i < |TradingDates(s.daily, start, end)|
    ensures var dates := TradingDates(s.daily, start, end); var d := dates[i];
      RowsOn(Described(s, start, end, size).0.compositions, d)
        == if i <= HaltIndex(s, start, end, size) && |CandidatesOn(s.daily, d)| >= size
           then CompositionRowsFor(d, TopStocks(s.daily, d, size), Weight(size)) else []
  {
    var x := ClearRange(s, start, end);
    var dates := TradingDates(s.daily, start, end);
    var pl := PlanOf(s.daily, dates, size);
    var f := FirstHalt(pl);
    var n := if f == |dates| then f else f + 1;
    WalkCompositions(x, pl);
    assert Described(s, start, end, size).0.compositions == x.compositions + WrittenCompositions(pl, n);
    ClearedAfterClear(s, start, end);
    CompositionOfDate(x, pl, i, n);
    SelectionOfDate(s.daily, dates, size, i);
  }


  /**
    After the rebuild, trading date `dates[i]` holds its point when it has
    `size` candidates and lies before the date the rebuild raises on (if
    any), and no performance row otherwise.
  */
  lemma DescribedPointAt(s: Store, start: Date, end: Date, size: nat, i: nat)
    requires size > 0 && UniqueBy(s.daily, DailyKey) && i < |TradingDates(s.daily, start, end)|
    ensures var dates := TradingDates(s.daily, start, end); var d := dates[i];
      var pl := PlanOf(s.daily, dates, size);
      PerformanceOn(Described(s, start, end, size).0.performance, d)
        == if i < HaltIndex(s, start, end, size) && |CandidatesOn(s.daily, d)| >= size then [PointAt(pl, i)] else []
  {
    var dates := TradingDates(s.daily, start, end);
    var pl := PlanOf(s.daily, dates, size);
    ReadyAfterClear(s, start, end, size);
    PerformanceOfDate(ClearRange(s, start, end), pl, i, FirstHalt(pl));
    SelectionOfDate(s.daily, dates, size, i);
  }

  /** The reported `dates_processed` is the number of performance rows the rebuild added. */
  lemma DescribedCount(s: Store, start: Date, end: Date, size: nat)
    requires size > 0
    ensures var (r, outcome) := Described(s, start, end, size);
      outcome.Built? ==> |r.performance| == |ClearRange(s, start, end).performance| + outcome.datesProcessed
  {
    var dates := TradingDates(s.daily, start, end);
    if dates != [] {
      var pl := PlanOf(s.daily, dates, size);
      if FirstHalt(pl) == |dates| {
        CountIsPoints(pl, |dates|);
      }
    }
  }

  /** Clearing a range again removes nothing more. */
  lemma ClearRangeIdempotent(s: Store, start: Date, end: Date)
    ensures ClearRange(ClearRange(s, start, end), start, end) == ClearRange(s, start, end)
  {
    var x := ClearRange(s, start, end);
    FilterAll(x.compositions, CompositionOutside(start, end));
    FilterAll(x.performance, PerformanceOutside(start, end));
  }

  /** Clearing the range of a rebuilt store gives back the store the rebuild started from. */
  lemma ClearAfterRebuild(s: Store, start: Date, end: Date, size: nat)
    requires size > 0
    ensures ClearRange(Described(s, start, end, size).0, start, end) == ClearRange(s, start, end)
  {
    var x := ClearRange(s, start, end);
    var dates := TradingDates(s.daily, start, end);
    ClearRangeIdempotent(s, start, end);
    if dates != [] {
      var pl := PlanOf(s.daily, dates, size);
      var f := FirstHalt(pl);
      var n := if f == |dates| then f else f + 1;
      var wc := WrittenCompositions(pl, n);
      var wp := WrittenPerformance(pl, f);
      WrittenCompositionsInPlan(pl, n);
      WrittenPerformanceInPlan(pl, f);
      FilterConcat(x.compositions, wc, CompositionOutside(start, end));
      FilterConcat(x.performance, wp, PerformanceOutside(start, end));
      FilterNone(wc, CompositionOutside(start, end));
      FilterNone(wp, PerformanceOutside(start, end));
      assert x.compositions + [] == x.compositions;
      assert x.performance + [] == x.performance;
    }
  }

  /** Rebuilding the same range twice leaves the same tables and reports the same as rebuilding once. */
  lemma RebuildIdempotent(s: Store, start: Date, end: Date, size: nat)
    requires size > 0
    ensures Described(Described(s, start, end, size).0, start, end, size) == Described(s, start, end, size)
  {
    DescribedKeepsOutside(s, start, end, size);
    ClearAfterRebuild(s, start, end, size);
  }
}
