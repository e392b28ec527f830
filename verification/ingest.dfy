/**
  The pure post-processing of `fetch_historical_data`: each ticker's download
  becomes price rows with `market_cap = close * shares`, rows with a missing
  open, close or volume are dropped, and the combined rows are restricted to
  dates quoted by at least five rows, sorted by `(date, ticker)` and cut to
  the most recent `min_trading_days` dates.
*/
module Ingest {
  import opened Wrappers
  import opened Seqs
  import opened Dates
  import opened Tables

  /** One day of a ticker's download; a missing field is `None`. */
  datatype Quote = Quote(date: Date, open: Option<real>, close: Option<real>, volume: Option<real>)

  /** A download: the ticker, its daily quotes, and the shares outstanding its metadata reported. */
  datatype Download = Download(ticker: Ticker, quotes: seq<Quote>, shares: real)

  /** A row of the combined frame. */
  datatype PriceRow = PriceRow(
    ticker: Ticker, date: Date,
    open: Option<real>, close: Option<real>, volume: Option<real>,
    marketCap: Option<real>)

  /** The batch path raises `ValueError("No data fetched for any ticker")`. */
  datatype IngestError = NoDataFetched

  /** `Close * shares_outstanding`. */
  function MarketCapOf(close: real, shares: real): real
  {
    close * shares
  }

  /** The row of a quote; a missing close gives a missing market cap. */
  function RowOf(ticker: Ticker, q: Quote, shares: real): PriceRow
  {
    PriceRow(ticker, q.date, q.open, q.close, q.volume, if q.close.Some? then Some(MarketCapOf(q.close.value, shares)) else None)
  }

  predicate Complete(q: Quote)
  {
    q.open.Some? && q.close.Some? && q.volume.Some?
  }

  /** The frame of one download after `is_not_null` on close, open and volume, in quote order. */
  function Frame(d: Download): (r: seq<PriceRow>)
    ensures |r| <= |d.quotes|
    ensures forall x :: x in r <==> exists q :: q in d.quotes && Complete(q) && x == RowOf(d.ticker, q, d.shares)
    ensures forall x :: x in r ==>
      && x.ticker == d.ticker && x.open.Some? && x.close.Some? && x.volume.Some?
      && x.marketCap == Some(MarketCapOf(x.close.value, d.shares))
  {
    FrameOf(d.ticker, d.quotes, d.shares)
  }

  function FrameOf(ticker: Ticker, quotes: seq<Quote>, shares: real): (r: seq<PriceRow>)
    ensures |r| <= |quotes|
    ensures forall x :: x in r <==> exists q :: q in quotes && Complete(q) && x == RowOf(ticker, q, shares)
    ensures forall x :: x in r ==>
      && x.ticker == ticker && x.open.Some? && x.close.Some? && x.volume.Some?
      && x.marketCap == Some(MarketCapOf(x.close.value, shares))
  {
    if quotes == [] then []
    else
      assert quotes == [quotes[0]] + quotes[1..];
      var rest := FrameOf(ticker, quotes[1..], shares);
      if Complete(quotes[0]) then
        [RowOf(ticker, quotes[0], shares)] + rest
      else rest
  }

  /** `pl.concat(all_data)`, where `all_data` holds the non-empty frames in download order. */
  function Concat(ds: seq<Download>): (r: seq<PriceRow>)
    ensures forall x :: x in r <==> exists k :: 0 <= k < |ds| && x in Frame(ds[k])
  {
    if ds == [] then []
    else
      var rest := Concat(ds[1..]);
      assert forall k :: 0 <= k < |ds[1..]| ==> ds[1..][k] == ds[k + 1];
      Frame(ds[0]) + rest
  }

  // ---------------------------------------------------------------- per-date coverage

  /** `group_by('date').agg(pl.count())`: the number of rows on `d`. */
  function CountOn(rows: seq<PriceRow>, d: Date): nat
  {
    if rows == [] then 0 else (if rows[0].date == d then 1 else 0) + CountOn(rows[1..], d)
  }

  /** The fewest rows a date needs to survive the coverage filter. */
  const MinRowsPerDate: nat := 5

  function CoveredIn(rows: seq<PriceRow>): PriceRow -> bool
  {
    (x: PriceRow) => CountOn(rows, x.date) >= MinRowsPerDate
  }

  /** A row is on a date that some row of `rows` is on. */
  lemma CountPositive(rows: seq<PriceRow>, x: PriceRow)
    requires x in rows
    ensures CountOn(rows, x.date) >= 1
  {
    if rows[0] != x {
      assert x in rows[1..];
      CountPositive(rows[1..], x);
    }
  }

  /** Counting a date over two frames one after the other adds the two counts. */
  lemma {:induction false} CountOnAppend(a: seq<PriceRow>, b: seq<PriceRow>, d: Date)
    ensures CountOn(a + b, d) == CountOn(a, d) + CountOn(b, d)
  {
    if a == [] {
      assert a + b == b;
    } else {
      assert (a + b)[0] == a[0] && (a + b)[1..] == a[1..] + b;
      CountOnAppend(a[1..], b, d);
    }
  }

  /** `pl.concat` keeps every downloaded row with its multiplicity, so a date's count adds up frame by frame. */
  lemma ConcatCounts(ds: seq<Download>, d: Date)
    requires ds != []
    ensures CountOn(Concat(ds), d) == CountOn(Frame(ds[0]), d) + CountOn(Concat(ds[1..]), d)
  {
    CountOnAppend(Frame(ds[0]), Concat(ds[1..]), d);
  }

  /** A filter that keeps or drops whole dates keeps the count of every date it keeps. */
  lemma {:induction false} CountOnDateFilter(rows: seq<PriceRow>, p: PriceRow -> bool, d: Date)
    requires forall x, y :: x in rows && y in rows && x.date == y.date ==> p(x) == p(y)
    requires exists x :: x in rows && x.date == d && p(x)
    ensures CountOn(Filter(rows, p), d) == CountOn(rows, d)
  {
    var w :| w in rows && w.date == d && p(w);
    CountOnFilterKeeping(rows, p, w);
  }

  lemma {:induction false} CountOnFilterKeeping(rows: seq<PriceRow>, p: PriceRow -> bool, w: PriceRow)
    requires p(w)
    requires forall x :: x in rows && x.date == w.date ==> p(x)
    ensures CountOn(Filter(rows, p), w.date) == CountOn(rows, w.date)
  {
    if rows != [] {
      assert rows == [rows[0]] + rows[1..];
      CountOnFilterKeeping(rows[1..], p, w);
      var tail := Filter(rows[1..], p);
      if p(rows[0]) {
        assert Filter(rows, p) == [rows[0]] + tail;
        assert ([rows[0]] + tail)[1..] == tail;
      } else {
        assert rows[0].date != w.date;
        assert Filter(rows, p) == tail;
      }
    }
  }

  // ---------------------------------------------------------------- sort by (date, ticker)

  /** Lexicographic order of tickers, character by character. */
  predicate TextNotAfter(a: string, b: string)
  {
    a == [] || (b != [] && (a[0] < b[0] || (a[0] == b[0] && TextNotAfter(a[1..], b[1..]))))
  }

  lemma TextTotal(a: string, b: string)
    ensures TextNotAfter(a, b) || TextNotAfter(b, a)
  {
    if a != [] && b != [] && a[0] == b[0] {
      TextTotal(a[1..], b[1..]);
    }
  }

  /** `sort(['date', 'ticker'])`: by date, then by ticker. */
  predicate RowNotAfter(x: PriceRow, y: PriceRow)
  {
    Before(x.date, y.date) || (x.date == y.date && TextNotAfter(x.ticker, y.ticker))
  }

  lemma TextTransitive(a: string, b: string, c: string)
    requires TextNotAfter(a, b) && TextNotAfter(b, c)
    ensures TextNotAfter(a, c)
  {
    if a != [] && b != [] && c != [] && a[0] == b[0] && b[0] == c[0] {
      TextTransitive(a[1..], b[1..], c[1..]);
    }
  }

  lemma RowTransitive(x: PriceRow, y: PriceRow, z: PriceRow)
    requires RowNotAfter(x, y) && RowNotAfter(y, z)
    ensures RowNotAfter(x, z)
  {
    if x.date == y.date && y.date == z.date {
      TextTransitive(x.ticker, y.ticker, z.ticker);
    }
  }

  lemma RowTotal(x: PriceRow, y: PriceRow)
    ensures RowNotAfter(x, y) || RowNotAfter(y, x)
  {
    TextTotal(x.ticker, y.ticker);
    if x.date != y.date {
      SortKeyInjective(x.date, y.date);
    }
  }

  ghost predicate RowsSorted(s: seq<PriceRow>)
  {
    forall i, j :: 0 <= i < j < |s| ==> RowNotAfter(s[i], s[j])
  }

  function InsertRow(x: PriceRow, s: seq<PriceRow>): (r: seq<PriceRow>)
    requires RowsSorted(s)
    ensures RowsSorted(r)
    ensures |r| == |s| + 1
    ensures forall y :: y in r <==> y == x || y in s
  {
    if s == [] || RowNotAfter(x, s[0]) then
      assert forall k :: 0 <= k < |s| ==> RowNotAfter(x, s[k]) by {
        forall k | 0 <= k < |s| ensures RowNotAfter(x, s[k]) {
          if k > 0 { RowTransitive(x, s[0], s[k]); }
        }
      }
      [x] + s
    else
      var tail := InsertRow(x, s[1..]);
      assert s == [s[0]] + s[1..];
      RowTotal(x, s[0]);
      assert forall k :: 0 <= k < |tail| ==> RowNotAfter(s[0], tail[k]) by {
        forall k | 0 <= k < |tail| ensures RowNotAfter(s[0], tail[k]) {
          assert tail[k] in tail;
        }
      }
      [s[0]] + tail
  }

  function SortRows(s: seq<PriceRow>): (r: seq<PriceRow>)
    ensures RowsSorted(r)
    ensures |r| == |s|
    ensures forall y :: y in r <==> y in s
  {
    if s == [] then []
    else
      assert s == [s[0]] + s[1..];
      InsertRow(s[0], SortRows(s[1..]))
  }

  lemma {:induction false} InsertRowPermutes(x: PriceRow, s: seq<PriceRow>)
    requires RowsSorted(s)
    ensures multiset(InsertRow(x, s)) == multiset{x} + multiset(s)
  {
    if s != [] && !RowNotAfter(x, s[0]) {
      assert s == [s[0]] + s[1..];
      InsertRowPermutes(x, s[1..]);
    }
  }

  /** The sort only reorders the rows. */
  lemma {:induction false} SortRowsPermutes(s: seq<PriceRow>)
    ensures multiset(SortRows(s)) == multiset(s)
  {
    if s != [] {
      assert s == [s[0]] + s[1..];
      SortRowsPermutes(s[1..]);
      InsertRowPermutes(s[0], SortRows(s[1..]));
    }
  }

  lemma {:induction false} InsertRowCounts(x: PriceRow, s: seq<PriceRow>, d: Date)
    requires RowsSorted(s)
    ensures CountOn(InsertRow(x, s), d) == (if x.date == d then 1 else 0) + CountOn(s, d)
  {
    if s != [] && !RowNotAfter(x, s[0]) {
      assert s == [s[0]] + s[1..];
      InsertRowCounts(x, s[1..], d);
      RowTotal(x, s[0]);
      assert InsertRow(x, s)[1..] == InsertRow(x, s[1..]);
    }
  }

  /** The sort keeps the number of rows on every date. */
  lemma {:induction false} SortRowsCounts(s: seq<PriceRow>, d: Date)
    ensures CountOn(SortRows(s), d) == CountOn(s, d)
  {
    if s != [] {
      SortRowsCounts(s[1..], d);
      InsertRowCounts(s[0], SortRows(s[1..]), d);
    }
  }

  /** Dropping rows from a sorted sequence leaves it sorted. */
  lemma {:induction false} FilterSorted(s: seq<PriceRow>, p: PriceRow -> bool)
    requires RowsSorted(s)
    ensures RowsSorted(Filter(s, p))
  {
    if s != [] {
      assert s == [s[0]] + s[1..];
      var tail := Filter(s[1..], p);
      assert RowsSorted(s[1..]) by {
        forall i, j | 0 <= i < j < |s[1..]| ensures RowNotAfter(s[1..][i], s[1..][j]) {
          assert s[1..][i] == s[i + 1] && s[1..][j] == s[j + 1];
        }
      }
      FilterSorted(s[1..], p);
      if p(s[0]) {
        assert Filter(s, p) == [s[0]] + tail;
        forall k | 0 <= k < |tail| ensures RowNotAfter(s[0], tail[k]) {
          assert tail[k] in s[1..];
          var m :| 0 <= m < |s[1..]| && s[1..][m] == tail[k];
          assert s[m + 1] == tail[k];
        }
      } else {
        assert Filter(s, p) == tail;
      }
    }
  }

  // ---------------------------------------------------------------- most recent dates

  /** The date column. */
  function DatesOf(rows: seq<PriceRow>): (r: seq<Date>)
    ensures forall d :: d in r <==> exists x :: x in rows && x.date == d
  {
    if rows == [] then []
    else
      assert rows == [rows[0]] + rows[1..];
      [rows[0].date] + DatesOf(rows[1..])
  }

  /**
    `all_dates[-min_trading_days]` for `len(all_dates) > min_trading_days`:
    the earliest of the latest `min_trading_days` dates, and for 0 (where
    `-0` is index 0) the earliest date of all.
  */
  function Cutoff(ds: seq<Date>, minDays: nat): (c: Date)
    requires |ds| > minDays
    ensures c in ds
    ensures Increasing(ds) && minDays == 0 ==> forall k :: 0 <= k < |ds| ==> NotAfter(c, ds[k])
    ensures Increasing(ds) && minDays > 0 ==> forall k :: 0 <= k < |ds| ==> (NotAfter(c, ds[k]) <==> |ds| - minDays <= k)
  {
    var lo := if minDays == 0 then 0 else |ds| - minDays;
    assert Increasing(ds) ==> forall k :: 0 <= k < |ds| ==> (NotAfter(ds[lo], ds[k]) <==> lo <= k) by {
      if Increasing(ds) {
        forall k | 0 <= k < |ds| ensures NotAfter(ds[lo], ds[k]) <==> lo <= k {
          if k < lo {
            assert Before(ds[k], ds[lo]);
          } else if lo < k {
            assert Before(ds[lo], ds[k]);
          }
        }
      }
    }
    ds[lo]
  }

  function OnOrAfter(c: Date): PriceRow -> bool
  {
    (x: PriceRow) => NotAfter(c, x.date)
  }

  /** `filter(date >= cutoff)` when there are more than `min_trading_days` distinct dates; otherwise all rows. */
  function KeepRecent(rows: seq<PriceRow>, minDays: nat): (r: seq<PriceRow>)
    ensures forall x :: x in r ==> x in rows
  {
    var ds := DistinctAscending(DatesOf(rows));
    if |ds| > minDays then Filter(rows, OnOrAfter(Cutoff(ds, minDays))) else rows
  }

  /**
    With more than `minDays` distinct dates and `minDays > 0`, a date keeps
    its rows exactly when it is among the latest `minDays` distinct dates;
    otherwise, and always for `minDays == 0`, every row is kept.
  */
  lemma KeepRecentDates(rows: seq<PriceRow>, minDays: nat)
    ensures var ds := DistinctAscending(DatesOf(rows));
      && (|ds| <= minDays || minDays == 0 ==> KeepRecent(rows, minDays) == rows)
      && (|ds| > minDays > 0 ==> forall x :: x in KeepRecent(rows, minDays) <==> x in rows && x.date in ds[|ds| - minDays..])
  {
    var ds := DistinctAscending(DatesOf(rows));
    if |ds| > minDays {
      var c := Cutoff(ds, minDays);
      if minDays == 0 {
        forall x | x in rows ensures OnOrAfter(c)(x) {
          assert x.date in ds;
          var k :| 0 <= k < |ds| && ds[k] == x.date;
          assert k == 0 || Before(ds[0], ds[k]);
        }
        FilterAll(rows, OnOrAfter(c));
      } else {
        forall x | x in rows ensures OnOrAfter(c)(x) <==> x.date in ds[|ds| - minDays..] {
          assert x.date in ds;
          RecentDate(ds, minDays, x.date);
        }
      }
    }
  }

  /** On ascending dates, a date is on or after the cutoff exactly when it is among the latest `minDays`. */
  lemma RecentDate(ds: seq<Date>, minDays: nat, e: Date)
    requires Increasing(ds) && |ds| > minDays > 0 && e in ds
    ensures NotAfter(Cutoff(ds, minDays), e) <==> e in ds[|ds| - minDays..]
  {
    var lo := |ds| - minDays;
    var k :| 0 <= k < |ds| && ds[k] == e;
    if k >= lo {
      assert ds[k] == ds[lo..][k - lo];
    } else {
      forall m | 0 <= m < |ds[lo..]| ensures ds[lo..][m] != e {
        assert ds[lo..][m] == ds[lo + m];
        assert Before(ds[k], ds[lo + m]);
      }
    }
  }

  /** No kept row is dated before a dropped row. */
  lemma RecentAfterDropped(rows: seq<PriceRow>, minDays: nat)
    ensures forall x, y :: x in KeepRecent(rows, minDays) && y in rows && y !in KeepRecent(rows, minDays) ==> Before(y.date, x.date)
  {
    var ds := DistinctAscending(DatesOf(rows));
    if |ds| > minDays {
      var c := Cutoff(ds, minDays);
      forall x, y | x in KeepRecent(rows, minDays) && y in rows && y !in KeepRecent(rows, minDays) ensures Before(y.date, x.date) {
        assert NotAfter(c, x.date) && !NotAfter(c, y.date);
      }
    }
  }

  // ---------------------------------------------------------------- the pipeline

  /** The rows of the dates quoted at least five times, sorted by `(date, ticker)`. */
  function CoveredRows(combined: seq<PriceRow>): (r: seq<PriceRow>)
    ensures RowsSorted(r)
    ensures forall x :: x in r <==> x in combined && CountOn(combined, x.date) >= MinRowsPerDate
  {
    SortRows(Filter(combined, CoveredIn(combined)))
  }

  /**
    The coverage filter, the sort and the recency cut, applied to the
    combined frame: the result is sorted by `(date, ticker)` and holds only
    rows of dates quoted at least `MinRowsPerDate` times.
  */
  function Process(combined: seq<PriceRow>, minDays: nat): (r: seq<PriceRow>)
    ensures RowsSorted(r)
    ensures forall x :: x in r ==> x in combined && CountOn(combined, x.date) >= MinRowsPerDate
  {
    KeepRecentSorted(CoveredRows(combined), minDays);
    KeepRecent(CoveredRows(combined), minDays)
  }

  /** The recency cut keeps a sorted frame sorted. */
  lemma KeepRecentSorted(rows: seq<PriceRow>, minDays: nat)
    requires RowsSorted(rows)
    ensures RowsSorted(KeepRecent(rows, minDays))
  {
    var ds := DistinctAscending(DatesOf(rows));
    if |ds| > minDays {
      FilterSorted(rows, OnOrAfter(Cutoff(ds, minDays)));
    }
  }

  /**
    The recency cut applies to the dates that survive the coverage filter:
    a covered row is kept exactly when its date is among the latest
    `minDays` of them, and every covered row is kept when there are no more
    than `minDays` such dates or `minDays` is 0.
  */
  lemma ProcessKeepsLatest(combined: seq<PriceRow>, minDays: nat)
    ensures var covered := CoveredRows(combined);
      var ds := DistinctAscending(DatesOf(covered));
      && (|ds| <= minDays || minDays == 0 ==> Process(combined, minDays) == covered)
      && (|ds| > minDays > 0 ==> forall x :: x in Process(combined, minDays) <==>
           x in combined && CountOn(combined, x.date) >= MinRowsPerDate && x.date in ds[|ds| - minDays..])
  {
    KeepRecentDates(CoveredRows(combined), minDays);
  }

  /** `fetch_historical_data` after the downloads: the error when no frame holds a row. */
  function FetchHistorical(ds: seq<Download>, minDays: nat): (r: Result<seq<PriceRow>, IngestError>)
    ensures r.Err? <==> forall k :: 0 <= k < |ds| ==> Frame(ds[k]) == []
    ensures r.Ok? ==> r.value == Process(Concat(ds), minDays)
  {
    var combined := Concat(ds);
    assert forall k :: 0 <= k < |ds| && Frame(ds[k]) != [] ==> Frame(ds[k])[0] in combined;
    if combined == [] then
      Err(NoDataFetched)
    else
      assert combined[0] in combined;
      Ok(Process(combined, minDays))
  }

  /**
    The processed rows are sorted by `(date, ticker)`, are rows of the input
    unchanged, include every input row of each date they keep, and every
    date they hold has at least five rows.
  */
  lemma ProcessProperties(combined: seq<PriceRow>, minDays: nat)
    ensures var r := Process(combined, minDays);
      && RowsSorted(r)
      && (forall x :: x in r ==> x in combined && CountOn(combined, x.date) >= MinRowsPerDate)
      && (forall x :: x in r ==> CountOn(r, x.date) == CountOn(combined, x.date))
  {
    var covered := Filter(combined, CoveredIn(combined));
    var sorted := CoveredRows(combined);
    var r := Process(combined, minDays);
    var ds := DistinctAscending(DatesOf(sorted));
    if |ds| > minDays {
      FilterSorted(sorted, OnOrAfter(Cutoff(ds, minDays)));
    }
    forall x | x in r ensures CountOn(r, x.date) == CountOn(combined, x.date) {
      if |ds| > minDays {
        CountOnDateFilter(sorted, OnOrAfter(Cutoff(ds, minDays)), x.date);
      }
      SortRowsCounts(covered, x.date);
      CountOnDateFilter(combined, CoveredIn(combined), x.date);
    }
  }
}
