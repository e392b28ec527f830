/**
  `_get_top_stocks_by_market_cap`: the `index_size` largest positive market
  capitalisations quoted on one date. SQL leaves the order among equal market
  caps unspecified; the model sorts deterministically and its contract is
  relational, so it holds for every tie order.
*/
module Selection {
  import opened Seqs
  import opened Dates
  import opened Tables

  /** A row of the query result: ticker and market cap. */
  datatype Candidate = Candidate(ticker: Ticker, marketCap: real)

  function CandidateTicker(c: Candidate): Ticker { c.ticker }

  /** `SELECT ticker, market_cap FROM daily_stock_data WHERE date = ? AND market_cap > 0`. */
  function CandidatesOn(daily: seq<DailyRow>, d: Date): (r: seq<Candidate>)
    ensures forall c :: c in r <==>
      exists x :: x in daily && x.date == d && x.marketCap > 0.0 && c == Candidate(x.ticker, x.marketCap)
    ensures UniqueBy(daily, DailyKey) ==> UniqueBy(r, CandidateTicker)
  {
    if daily == [] then []
    else
      var x := daily[0];
      var tail := CandidatesOn(daily[1..], d);
      assert daily == [x] + daily[1..];
      assert UniqueBy(daily, DailyKey) ==> UniqueBy(tail, CandidateTicker) by {
        if UniqueBy(daily, DailyKey) { UniqueByTail(daily, DailyKey); }
      }
      if x.date == d && x.marketCap > 0.0 then
        assert UniqueBy(daily, DailyKey) ==> UniqueBy([Candidate(x.ticker, x.marketCap)] + tail, CandidateTicker) by {
          if UniqueBy(daily, DailyKey) {
            UniqueByTail(daily, DailyKey);
            forall c | c in tail ensures c.ticker != x.ticker {
              var y :| y in daily[1..] && y.date == d && y.marketCap > 0.0 && c == Candidate(y.ticker, y.marketCap);
              assert DailyKey(y) != DailyKey(x);
            }
            UniqueByPrepend(Candidate(x.ticker, x.marketCap), tail, CandidateTicker);
          }
        }
        [Candidate(x.ticker, x.marketCap)] + tail
      else tail
  }

  function Min(a: int, b: int): int { if a < b then a else b }

  /** `ORDER BY market_cap DESC`: no candidate precedes a larger one. */
  ghost predicate CapDescending(s: seq<Candidate>)
  {
    forall i, j :: 0 <= i < j < |s| ==> s[i].marketCap >= s[j].marketCap
  }

  /** Places `x` into the descending `s`, before the first candidate it is not smaller than. */
  function InsertByCap(x: Candidate, s: seq<Candidate>): (r: seq<Candidate>)
    requires CapDescending(s)
    ensures CapDescending(r)
    ensures |r| == |s| + 1
    ensures forall y :: y in r <==> y == x || y in s
  {
    if s == [] || x.marketCap >= s[0].marketCap then [x] + s
    else
      var tail := InsertByCap(x, s[1..]);
      assert s == [s[0]] + s[1..];
      assert forall k :: 0 <= k < |tail| ==> s[0].marketCap >= tail[k].marketCap by {
        forall k | 0 <= k < |tail| ensures s[0].marketCap >= tail[k].marketCap {
          if tail[k] != x {
            assert tail[k] in s[1..];
            var m :| 0 <= m < |s[1..]| && s[1..][m] == tail[k];
            assert s[m + 1] == tail[k];
          }
        }
      }
      [s[0]] + tail
  }

  /** The candidates in descending market cap (insertion sort). */
  function SortByCap(s: seq<Candidate>): (r: seq<Candidate>)
    ensures CapDescending(r)
    ensures |r| == |s|
    ensures forall y :: y in r <==> y in s
  {
    if s == [] then []
    else
      assert s == [s[0]] + s[1..];
      InsertByCap(s[0], SortByCap(s[1..]))
  }

  lemma {:induction false} InsertByCapPermutes(x: Candidate, s: seq<Candidate>)
    requires CapDescending(s)
    ensures multiset(InsertByCap(x, s)) == multiset(s) + multiset{x}
  {
    if s != [] && x.marketCap < s[0].marketCap {
      InsertByCapPermutes(x, s[1..]);
      assert s == [s[0]] + s[1..];
    }
  }

  /** The sort only reorders. */
  lemma {:induction false} SortByCapPermutes(s: seq<Candidate>)
    ensures multiset(SortByCap(s)) == multiset(s)
  {
    if s != [] {
      SortByCapPermutes(s[1..]);
      InsertByCapPermutes(s[0], SortByCap(s[1..]));
      assert s == [s[0]] + s[1..];
    }
  }

  /** A prefix of the descending order holds the largest market caps of the whole. */
  lemma SortedPrefixDominates(candidates: seq<Candidate>, sorted: seq<Candidate>, n: nat)
    requires forall y :: y in sorted <==> y in candidates
    requires CapDescending(sorted) && n <= |sorted|
    ensures forall c :: c in sorted[..n] ==> c in candidates
    ensures forall c, s :: c in candidates && c !in sorted[..n] && s in sorted[..n] ==> c.marketCap <= s.marketCap
  {
    var r := sorted[..n];
    forall c, s | c in candidates && c !in r && s in r ensures c.marketCap <= s.marketCap {
      var k :| 0 <= k < |sorted| && sorted[k] == c;
      var j :| 0 <= j < |r| && r[j] == s;
      assert k >= |r|;
      assert sorted[j].marketCap >= sorted[k].marketCap;
    }
  }

  /**
    `ORDER BY market_cap DESC LIMIT size`: at most `size` candidates, all of
    the date's qualifying rows when fewer exist, in descending market cap,
    with distinct tickers when the price table is keyed by (ticker, date).
  */
  function TopStocks(daily: seq<DailyRow>, d: Date, size: nat): (r: seq<Candidate>)
    ensures |r| == Min(size, |CandidatesOn(daily, d)|)
    ensures forall c :: c in r ==> c in CandidatesOn(daily, d)
    ensures forall i, j :: 0 <= i < j < |r| ==> r[i].marketCap >= r[j].marketCap
    ensures UniqueBy(daily, DailyKey) ==> UniqueBy(r, CandidateTicker)
  {
    var candidates := CandidatesOn(daily, d);
    var sorted := SortByCap(candidates);
    SortedPrefixDominates(candidates, sorted, Min(size, |sorted|));
    assert UniqueBy(daily, DailyKey) ==> UniqueBy(sorted, CandidateTicker) by {
      if UniqueBy(daily, DailyKey) {
        SortByCapPermutes(candidates);
        UniqueByPermutation(candidates, sorted, CandidateTicker);
      }
    }
    sorted[..Min(size, |sorted|)]
  }

  /** No candidate left out of the selection has a larger market cap than a chosen one. */
  lemma TopStocksDominates(daily: seq<DailyRow>, d: Date, size: nat)
    ensures var top := TopStocks(daily, d, size);
      forall c, s :: c in CandidatesOn(daily, d) && c !in top && s in top ==> c.marketCap <= s.marketCap
  {
    var candidates := CandidatesOn(daily, d);
    SortedPrefixDominates(candidates, SortByCap(candidates), Min(size, |candidates|));
  }
}
