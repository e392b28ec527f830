/**
  `IndexService` as the API drives it: the three read queries behind the
  Redis read-through, and `build_index`, which rebuilds a range of the store
  and then invalidates the cached replies the rebuild made stale.
*/
module IndexService {
  import opened Wrappers
  import opened Seqs
  import opened Dates
  import opened Tables
  import opened Selection
  import opened IndexBuild
  import opened RebuildProperties
  import opened Cache
  import opened Invalidation
  import opened Queries

  /** A decoded cached document: one of the three replies, or any other JSON value and its truthiness. */
  datatype Document =
    | CompositionDoc(composition: CompositionReply)
    | PerformanceDoc(performance: PerformanceReply)
    | ChangesDoc(changes: ChangesReply)
    | Other(truthy: bool)

  /** `if cached_data:` — a reply is a non-empty dict, so only some other documents are falsy. */
  predicate Truthy(v: Document)
  {
    !v.Other? || v.truthy
  }

  /** The cache answers `key` with a document the service returns as it is. */
  predicate Cached(c: RedisCache<Document>, key: string)
  {
    Get(c, key).Some? && Truthy(Get(c, key).value)
  }

  /**
    The read-through of the three queries: a truthy cached document is
    returned as it is; otherwise the reply computed from the store is
    returned and, when it is not an error, stored under `key` with the
    default TTL.
  */
  function ReadThrough(c: RedisCache<Document>, key: string, computed: Result<Document, QueryError>)
    : (r: (Result<Document, QueryError>, RedisCache<Document>))
    ensures Cached(c, key) ==> r == (Ok(Get(c, key).value), c)
    ensures !Cached(c, key) ==> r.0 == computed
    ensures !Cached(c, key) && computed.Err? ==> r.1 == c
    ensures !Cached(c, key) && computed.Ok? && c.available && c.defaultTtl > 0 ==> Get(r.1, key) == Some(computed.value)
    ensures forall k :: k != key ==> Get(r.1, k) == Get(c, k)
  {
    if Cached(c, key) then (Ok(Get(c, key).value), c)
    else
      match computed
      case Err(_) => (computed, c)
      case Ok(v) => (computed, Set(c, key, v, None).0)
  }

  /**
    The read-through as written: every reply holds a `datetime.date`, which
    `json.dumps` rejects, so the reply is never stored.
  */
  function ReadThroughAsWritten(c: RedisCache<Document>, key: string, computed: Result<Document, QueryError>)
    : (r: (Result<Document, QueryError>, RedisCache<Document>))
    ensures Cached(c, key) ==> r.0 == Ok(Get(c, key).value)
    ensures !Cached(c, key) ==> r.0 == computed
    ensures r.1 == c
  {
    if Cached(c, key) then (Ok(Get(c, key).value), c)
    else
      match computed
      case Err(_) => (computed, c)
      case Ok(v) => (computed, SetAsWritten(c, key, v, None, false).0)
  }

  /** With the reply stored, the next read of the same key is served from the cache and changes nothing. */
  lemma SecondReadHits(c: RedisCache<Document>, key: string, computed: Result<Document, QueryError>, later: Result<Document, QueryError>)
    requires !Cached(c, key) && computed.Ok? && Truthy(computed.value)
    requires c.available && c.defaultTtl > 0
    ensures var c1 := ReadThrough(c, key, computed).1;
      && Cached(c1, key)
      && ReadThrough(c1, key, later) == (computed, c1)
  {
  }

  /** As written, a miss stays a miss: every later read recomputes the reply from the store. */
  lemma AsWrittenMissRepeats(c: RedisCache<Document>, key: string, computed: Result<Document, QueryError>, later: Result<Document, QueryError>)
    requires !Cached(c, key)
    ensures var c1 := ReadThroughAsWritten(c, key, computed).1;
      && !Cached(c1, key)
      && ReadThroughAsWritten(c1, key, later).0 == later
  {
  }

  function CompositionDocument(r: Result<CompositionReply, QueryError>): Result<Document, QueryError>
  {
    match r
    case Ok(v) => Ok(CompositionDoc(v))
    case Err(e) => Err(e)
  }

  function PerformanceDocument(r: Result<PerformanceReply, QueryError>): Result<Document, QueryError>
  {
    match r
    case Ok(v) => Ok(PerformanceDoc(v))
    case Err(e) => Err(e)
  }

  function ChangesDocument(r: Result<ChangesReply, QueryError>): Result<Document, QueryError>
  {
    match r
    case Ok(v) => Ok(ChangesDoc(v))
    case Err(e) => Err(e)
  }

  /** `get_composition(d)`, with the reply stored on a miss (corrected). */
  function GetComposition(st: Store, c: RedisCache<Document>, d: Date): (r: (Result<Document, QueryError>, RedisCache<Document>))
    ensures !Cached(c, CompositionKey(IsoText(d))) ==> r.0 == CompositionDocument(CompositionOn(st, d))
    ensures Cached(c, CompositionKey(IsoText(d))) ==> r == (Ok(Get(c, CompositionKey(IsoText(d))).value), c)
    ensures !Cached(c, CompositionKey(IsoText(d))) && CompositionOn(st, d).Ok? && c.available && c.defaultTtl > 0 ==>
      Get(r.1, CompositionKey(IsoText(d))) == Some(CompositionDoc(CompositionOn(st, d).value))
  {
    ReadThrough(c, CompositionKey(IsoText(d)), CompositionDocument(CompositionOn(st, d)))
  }

  /**
    `get_performance(start, end)` with the intended Sharpe ratio and the reply
    stored on a miss (corrected); `std` and `root` as for the Sharpe ratio.
  */
  function GetPerformance(st: Store, c: RedisCache<Document>, start: Date, end: Date, std: seq<real> -> real, root: real)
    : (r: (Result<Document, QueryError>, RedisCache<Document>))
    requires root > 0.0
    ensures !Cached(c, PerformanceKey(IsoText(start), IsoText(end))) ==> r.0 == PerformanceDocument(PerformanceIn(st, start, end, std, root))
    ensures Cached(c, PerformanceKey(IsoText(start), IsoText(end))) ==> r == (Ok(Get(c, PerformanceKey(IsoText(start), IsoText(end))).value), c)
    ensures var q := PerformanceIn(st, start, end, std, root);
      !Cached(c, PerformanceKey(IsoText(start), IsoText(end))) && q.Ok? && c.available && c.defaultTtl > 0 ==>
        Get(r.1, PerformanceKey(IsoText(start), IsoText(end))) == Some(PerformanceDoc(q.value))
  {
    ReadThrough(c, PerformanceKey(IsoText(start), IsoText(end)), PerformanceDocument(PerformanceIn(st, start, end, std, root)))
  }

  /** `get_composition_changes(start, end)`, with the reply stored on a miss (corrected). */
  function GetChanges(st: Store, c: RedisCache<Document>, start: Date, end: Date): (r: (Result<Document, QueryError>, RedisCache<Document>))
    ensures !Cached(c, ChangesKey(IsoText(start), IsoText(end))) ==> r.0 == ChangesDocument(CompositionChanges(st, start, end))
    ensures Cached(c, ChangesKey(IsoText(start), IsoText(end))) ==> r == (Ok(Get(c, ChangesKey(IsoText(start), IsoText(end))).value), c)
    ensures var q := CompositionChanges(st, start, end);
      !Cached(c, ChangesKey(IsoText(start), IsoText(end))) && q.Ok? && c.available && c.defaultTtl > 0 ==>
        Get(r.1, ChangesKey(IsoText(start), IsoText(end))) == Some(ChangesDoc(q.value))
  {
    ReadThrough(c, ChangesKey(IsoText(start), IsoText(end)), ChangesDocument(CompositionChanges(st, start, end)))
  }

  /** `get_composition(d)` as written: the reply is computed on a miss and never stored. */
  function GetCompositionAsWritten(st: Store, c: RedisCache<Document>, d: Date): (r: (Result<Document, QueryError>, RedisCache<Document>))
    ensures Cached(c, CompositionKey(IsoText(d))) ==> r.0 == Ok(Get(c, CompositionKey(IsoText(d))).value)
    ensures !Cached(c, CompositionKey(IsoText(d))) ==> r.0 == CompositionDocument(CompositionOn(st, d))
    ensures r.1 == c
  {
    ReadThroughAsWritten(c, CompositionKey(IsoText(d)), CompositionDocument(CompositionOn(st, d)))
  }

  /**
    `get_performance(start, end)` as written: the Sharpe ratio subtracts the
    fractional rate from percent returns, and the reply is never stored.
  */
  function GetPerformanceAsWritten(st: Store, c: RedisCache<Document>, start: Date, end: Date, std: seq<real> -> real, root: real)
    : (r: (Result<Document, QueryError>, RedisCache<Document>))
    requires root > 0.0
    ensures Cached(c, PerformanceKey(IsoText(start), IsoText(end))) ==> r.0 == Ok(Get(c, PerformanceKey(IsoText(start), IsoText(end))).value)
    ensures !Cached(c, PerformanceKey(IsoText(start), IsoText(end))) ==> r.0 == PerformanceDocument(PerformanceInAsWritten(st, start, end, std, root))
    ensures r.1 == c
  {
    ReadThroughAsWritten(c, PerformanceKey(IsoText(start), IsoText(end)), PerformanceDocument(PerformanceInAsWritten(st, start, end, std, root)))
  }

  /** `get_composition_changes(start, end)` as written: the reply is computed on a miss and never stored. */
  function GetChangesAsWritten(st: Store, c: RedisCache<Document>, start: Date, end: Date): (r: (Result<Document, QueryError>, RedisCache<Document>))
    ensures Cached(c, ChangesKey(IsoText(start), IsoText(end))) ==> r.0 == Ok(Get(c, ChangesKey(IsoText(start), IsoText(end))).value)
    ensures !Cached(c, ChangesKey(IsoText(start), IsoText(end))) ==> r.0 == ChangesDocument(CompositionChanges(st, start, end))
    ensures r.1 == c
  {
    ReadThroughAsWritten(c, ChangesKey(IsoText(start), IsoText(end)), ChangesDocument(CompositionChanges(st, start, end)))
  }

  /**
    As written, a performance reply computed on a miss differs from the
    corrected one in the Sharpe ratio alone, which it overstates whenever
    the range's daily returns vary.
  */
  lemma PerformanceAsWrittenDiffers(st: Store, c: RedisCache<Document>, start: Date, end: Date, std: seq<real> -> real, root: real)
    requires root > 0.0 && !Cached(c, PerformanceKey(IsoText(start), IsoText(end)))
    ensures var w := GetPerformanceAsWritten(st, c, start, end, std, root).0;
      var f := GetPerformance(st, c, start, end, std, root).0;
      && (w.Ok? <==> f.Ok?)
      && (w.Ok? ==> w.value.PerformanceDoc? && f.value.PerformanceDoc?)
      && (w.Ok? ==> w.value.performance.(summary := f.value.performance.summary) == f.value.performance)
      && (w.Ok? ==> w.value.performance.summary.(sharpeRatio := f.value.performance.summary.sharpeRatio) == f.value.performance.summary)
      && (w.Ok? && |PerformanceRows(st.performance, start, end)| >= 2 && std(Returns(PerformanceRows(st.performance, start, end))) > 0.0 ==>
            w.value.performance.summary.sharpeRatio > f.value.performance.summary.sharpeRatio)
  {
  }

  // ---------------------------------------------------------------- build_index

  /** The success reply of `build_index`. */
  datatype BuildReply = BuildReply(datesProcessed: nat, start: Date, end: Date)

  /**
    What `build_index` raises: the `ValueError` for a range without price
    rows (the end is `None` when it was resolved from an empty table), the
    error of a daily return that is not a finite number on `date`, or the
    `OverflowError` of the invalidation walk past `date.max`.
  */
  datatype BuildError = NoTradingDataIn(start: Date, end: Option<Date>) | ReturnNotFiniteOn(date: Date) | DateOverflowAfterBuild

  /** `SELECT MAX(date) FROM daily_stock_data`: `None` (SQL NULL) for an empty table. */
  function LatestDate(daily: seq<DailyRow>): (r: Option<Date>)
    ensures r.None? <==> daily == []
    ensures r.Some? ==> exists x :: x in daily && x.date == r.value
    ensures r.Some? ==> forall x :: x in daily ==> NotAfter(x.date, r.value)
  {
    if daily == [] then None
    else
      assert daily == [daily[0]] + daily[1..];
      var rest := LatestDate(daily[1..]);
      if rest.None? || NotAfter(rest.value, daily[0].date) then Some(daily[0].date) else rest
  }

  /**
    `build_index(start, end)`. A missing end is resolved to the latest price
    date; when the table is empty it stays NULL, no row compares with it, and
    the call fails with the store and the cache as they were. Otherwise the
    range is rebuilt; a range without price rows fails after the clear, and a
    return that is not a finite number fails once the dates before it are
    written, both with the cache untouched; a completed rebuild invalidates
    the cache and reports the number of dates processed, unless the
    invalidation walk overflows.
  */
  method BuildIndex(st: Store, c: RedisCache<Document>, start: Date, end: Option<Date>, size: nat)
    returns (st1: Store, c1: RedisCache<Document>, r: Result<BuildReply, BuildError>)
    requires size > 0 && UniqueBy(st.daily, DailyKey)
    ensures end.None? && st.daily == [] ==> st1 == st && c1 == c && r == Err(NoTradingDataIn(start, None))
    ensures end.Some? || st.daily != [] ==>
      var last := if end.Some? then end.value else LatestDate(st.daily).value;
      var (rebuilt, outcome) := Described(st, start, last, size);
      && st1 == rebuilt
      && (outcome == NoTradingData <==> TradingDates(st.daily, start, last) == [])
      && (outcome == NoTradingData ==> c1 == c && r == Err(NoTradingDataIn(start, Some(last))))
      && (outcome.ReturnNotFinite? ==> c1 == c && r == Err(ReturnNotFiniteOn(outcome.date)))
      && (outcome.Built? ==> c1 == InvalidateCache(c, start, last).0)
      && (outcome.Built? && last != LastDate ==> r == Ok(BuildReply(outcome.datesProcessed, start, last)))
      && (outcome.Built? && last == LastDate ==> r == Err(DateOverflowAfterBuild))
  {
    var last: Date;
    if end.Some? {
      last := end.value;
    } else {
      var latest := LatestDate(st.daily);
      if latest.None? {
        return st, c, Err(NoTradingDataIn(start, None));
      }
      last := latest.value;
    }
    var built, outcome := Rebuild(st, start, last, size);
    if outcome == NoTradingData {
      return built, c, Err(NoTradingDataIn(start, Some(last)));
    }
    if outcome.ReturnNotFinite? {
      return built, c, Err(ReturnNotFiniteOn(outcome.date));
    }
    var dates := TradingDates(st.daily, start, last);
    assert dates[0] in dates;
    var invalidated := InvalidateCache(c, start, last);
    st1, c1 := built, invalidated.0;
    if invalidated.1 == DateOverflow {
      r := Err(DateOverflowAfterBuild);
    } else {
      r := Ok(BuildReply(outcome.datesProcessed, start, last));
    }
  }

  /**
    After a completed rebuild and invalidation of `[start, end]` on an
    answering backend, the composition of every day of the range and every
    performance and changes reply are read from the rebuilt store.
  */
  lemma ReadsAfterBuildAreFresh(st: Store, c: RedisCache<Document>, start: Date, end: Date, size: nat,
                                d: Date, from: Date, to: Date, std: seq<real> -> real, root: real)
    requires size > 0 && c.available && root > 0.0
    requires InvalidateCache(c, start, end).1 == Finished
    requires InRange(d, start, end)
    ensures var rebuilt := Described(st, start, end, size).0;
      var c1 := InvalidateCache(c, start, end).0;
      && GetComposition(rebuilt, c1, d).0 == CompositionDocument(CompositionOn(rebuilt, d))
      && GetPerformance(rebuilt, c1, from, to, std, root).0 == PerformanceDocument(PerformanceIn(rebuilt, from, to, std, root))
      && GetChanges(rebuilt, c1, from, to).0 == ChangesDocument(CompositionChanges(rebuilt, from, to))
      && GetCompositionAsWritten(rebuilt, c1, d).0 == CompositionDocument(CompositionOn(rebuilt, d))
      && GetPerformanceAsWritten(rebuilt, c1, from, to, std, root).0 == PerformanceDocument(PerformanceInAsWritten(rebuilt, from, to, std, root))
      && GetChangesAsWritten(rebuilt, c1, from, to).0 == ChangesDocument(CompositionChanges(rebuilt, from, to))
  {
    var c1 := InvalidateCache(c, start, end).0;
    InvalidatedKeysMiss(c, start, end, CompositionKey(IsoText(d)));
    InvalidatedKeysMiss(c, start, end, PerformanceKey(IsoText(from), IsoText(to)));
    InvalidatedKeysMiss(c, start, end, ChangesKey(IsoText(from), IsoText(to)));
  }

  /**
    The composition reply for a trading date of a rebuilt range: present
    exactly when the date had `size` candidates and the rebuild reached it,
    and then `size` holdings of weight `1 / size` with positive market caps.
  */
  lemma BuiltComposition(st: Store, start: Date, end: Date, size: nat, i: nat)
    requires size > 0 && UniqueBy(st.daily, DailyKey) && forall x :: x in st.daily ==> x.ticker in st.stocks
    requires i < |TradingDates(st.daily, start, end)|
    ensures var d := TradingDates(st.daily, start, end)[i];
      var reply := CompositionOn(Described(st, start, end, size).0, d);
      && (reply.Ok? <==> i <= HaltIndex(st, start, end, size) && |CandidatesOn(st.daily, d)| >= size)
      && (reply.Ok? ==> reply.value.totalStocks == size)
      && (reply.Ok? ==> forall h :: h in reply.value.holdings ==> h.weight == 1.0 / size as real && h.marketCap > 0.0)
  {
    var d := TradingDates(st.daily, start, end)[i];
    if i <= HaltIndex(st, start, end, size) && |CandidatesOn(st.daily, d)| >= size {
      SelectedDateComposition(st, start, end, size, i);
    } else {
      DescribedCompositionAt(st, start, end, size, i);
    }
  }

  lemma SelectedDateComposition(st: Store, start: Date, end: Date, size: nat, i: nat)
    requires size > 0 && UniqueBy(st.daily, DailyKey) && forall x :: x in st.daily ==> x.ticker in st.stocks
    requires i < |TradingDates(st.daily, start, end)|
    requires i <= HaltIndex(st, start, end, size) && |CandidatesOn(st.daily, TradingDates(st.daily, start, end)[i])| >= size
    ensures var d := TradingDates(st.daily, start, end)[i];
      var reply := CompositionOn(Described(st, start, end, size).0, d);
      && reply.Ok? && reply.value.totalStocks == size
      && forall h :: h in reply.value.holdings ==> h.weight == 1.0 / size as real && h.marketCap > 0.0
  {
    var d := TradingDates(st.daily, start, end)[i];
    DescribedCompositionAt(st, start, end, size, i);
    DescribedKeepsOutside(st, start, end, size);
    SelectionComposition(st.daily, Described(st, start, end, size).0, d, size);
  }

  /** A store holding a date's selection for `size`, with every priced ticker a stock, reports it. */
  lemma SelectionComposition(daily: seq<DailyRow>, rebuilt: Store, d: Date, size: nat)
    requires size > 0 && UniqueBy(daily, DailyKey) && forall x :: x in daily ==> x.ticker in rebuilt.stocks
    requires |CandidatesOn(daily, d)| >= size
    requires RowsOn(rebuilt.compositions, d) == CompositionRowsFor(d, TopStocks(daily, d, size), Weight(size))
    ensures var reply := CompositionOn(rebuilt, d);
      && reply.Ok? && reply.value.totalStocks == size
      && forall h :: h in reply.value.holdings ==> h.weight == 1.0 / size as real && h.marketCap > 0.0
  {
    var rows := RowsOn(rebuilt.compositions, d);
    SelectedRows(daily, d, size);
    forall x | x in rows ensures x.ticker in rebuilt.stocks && x.weight == 1.0 / size as real && x.marketCap > 0.0 {
      var k :| 0 <= k < |rows| && rows[k] == x;
      assert CandidateOf(x) in CandidatesOn(daily, d);
    }
    CompositionOfRows(rebuilt, d, size);
  }

  /** A date holding `size` joinable rows of one weight and positive caps is reported with exactly those. */
  lemma CompositionOfRows(st: Store, d: Date, size: nat)
    requires size > 0 && |RowsOn(st.compositions, d)| == size
    requires forall x :: x in RowsOn(st.compositions, d) ==>
      x.ticker in st.stocks && x.weight == 1.0 / size as real && x.marketCap > 0.0
    ensures var reply := CompositionOn(st, d);
      && reply.Ok? && reply.value.totalStocks == size
      && forall h :: h in reply.value.holdings ==> h.weight == 1.0 / size as real && h.marketCap > 0.0
  {
    var rows := RowsOn(st.compositions, d);
    var joined := Joined(rows, st.stocks);
    assert |joined| == size;
    assert rows[0] in rows;
    assert HoldingOf(rows[0], st.stocks[rows[0].ticker]) in joined;
  }

  /** A day of the range without price rows has no composition after the rebuild. */
  lemma UnpricedDayHasNoComposition(st: Store, start: Date, end: Date, size: nat, d: Date)
    requires size > 0 && InRange(d, start, end) && d !in TradingDates(st.daily, start, end)
    ensures CompositionOn(Described(st, start, end, size).0, d) == Err(NoCompositionOn(d))
  {
    DescribedNothingOff(st, start, end, size, d);
  }
}
