# Equal-weighted index engine, modelled in Dafny

This project models the index engine of the `h-e` service. The engine keeps
daily prices and market caps of a universe of stocks. From them it builds an
equal-weighted index of the `index_size` largest stocks, and it answers three
read queries behind a Redis read-through cache.

- **Rebuilding a range** (`IndexService.build_index`). A rebuild first deletes
  the composition and performance rows of `[start, end]`. It then walks the
  trading dates of the range in ascending order. A date with fewer than
  `index_size` positively capitalised stocks is skipped. Any other date gets
  the top `index_size` stocks by market cap, each with weight `1 / index_size`,
  and an index value chained from the base value 1000. The chain uses the
  return of the previous trading date's composition. Daily and cumulative
  returns are stored in percent. After the walk, the cached replies the
  rebuild made stale are invalidated.
- **Read queries.** The engine reports the composition held on a date, the
  performance over a range with summary statistics (including an annualised
  Sharpe ratio), and the composition changes between consecutive composition
  dates of a range. Each reply is read through the cache under
  `index:composition:<date>`, `index:performance:<start>:<end>` or
  `index:changes:<start>:<end>`.
- **Cache.** The Redis wrapper is best effort: a backend or encoding failure
  becomes a miss or a no-op.
- **Ingestion** (the pure part of `fetch_historical_data`). Each download
  becomes price rows with `market_cap = close * shares`, and rows with a
  missing field are dropped. The combined rows are restricted to dates quoted
  by at least five rows, sorted by `(date, ticker)` and cut to the latest
  `min_trading_days` dates.

Tables are sequences of rows, and their primary and foreign keys are
predicates over them. SQL `WHERE` is a sequence filter and `ORDER BY` is an
insertion sort. Every contract about the sort is relational, so it holds for
any order of ties. The rebuild is a method whose loop is proved to end in the
state that a date-by-date reference description (`IndexBuild.Described`)
gives. The properties of a rebuild are proved about that description.

The model keeps these behaviours of the code, which a reader may not expect:

- The first-day test is `i == 0`, not "first processed date". The model
  proves that the two agree anyway: the first processed date is always
  written at `(1000, 0, 0)` (`RebuildProperties.FirstPointIsBase`).
- A day's return is the sum of the price relatives of the previous trading
  date's composition, divided by the size of that composition. It is not an
  average over the tickers priced on both dates: a member without both closes
  counts as a return of 0. When the previous trading date was skipped, its
  composition is empty and the return is 0.
- `daily_return` and `cumulative_return` are stored multiplied by 100.
- With no end date and an empty price table, the end resolves to SQL NULL.
  The clear then deletes nothing and the call fails.

## Model

| member | source | states |
|---|---|---|
| Dates.Next | app/services/index_service.py:416 | `current + timedelta(days=1)` is a later date |
| Dates.NextIsImmediate | app/services/index_service.py:413-416 | no date lies between a day and the next, so the walk visits every calendar day of the range |
| Dates.IsoText | app/services/index_service.py:155 | `str(date)` is the ten-character zero-padded `YYYY-MM-DD` text and holds no colon |
| Dates.IsoTextInjective | app/services/index_service.py:155 | distinct dates give distinct key text |
| Dates.DistinctAscending | data_acquisition/fetch_data.py:269 | `unique().sort('date')`: strictly ascending, with exactly the dates of the input |
| Tables.Upsert | app/services/index_service.py:374-380 | `ON CONFLICT DO UPDATE`: the new row is present, other keys survive, the key stays unique, and without a match the row is appended |
| Tables.RowsOn | app/services/index_service.py:334-336 | `WHERE date = ?` returns exactly the rows of that date |
| Tables.TickerSetOfQuery | app/services/index_service.py:230-240 | `set(df['ticker'])` over the rows the date's query returns: the set of the date's tickers, as the ticker column of exactly those rows gives it |
| Tables.CloseOn | app/services/index_service.py:344-354 | a close exists exactly when the ticker has a price row on the date, and it is that row's close |
| Selection.CandidatesOn | app/services/index_service.py:315-318 | the candidates are exactly the date's rows with `market_cap > 0`, with distinct tickers under the price table's key |
| Selection.SortByCap | app/services/index_service.py:319 | `ORDER BY market_cap DESC` gives a descending sequence of the same candidates |
| Selection.SortByCapPermutes | app/services/index_service.py:319 | the ordering is a permutation |
| Selection.TopStocks | app/services/index_service.py:312-326 | `LIMIT index_size`: `min(size, candidates)` candidates of the date, descending, with distinct tickers |
| Selection.TopStocksDominates | app/services/index_service.py:315-321 | no candidate left out has a larger market cap than one selected |
| IndexBuild.ClearRange | app/services/index_service.py:396-405 | deletes exactly the composition and performance rows dated in the range, leaves prices and stocks alone, and keeps the integrity constraints |
| IndexBuild.TradingDates | app/services/index_service.py:300-310 | the distinct price dates of the range, strictly ascending, and nothing else |
| IndexBuild.CompositionRowsFor | app/services/index_service.py:373-380 | one row per selected stock, dated on the build date |
| IndexBuild.StoreComposition | app/services/index_service.py:370-381 | `ON CONFLICT (date, ticker) DO UPDATE`: every selected ticker ends with a row of the date at the given weight, every row under another key survives, the key stays unique, and on a keyed table the only new or changed rows are the selection's |
| IndexBuild.StoreCompositionAppends | app/services/index_service.py:370-381 | on a cleared date the upserts append the selection's rows in order |
| IndexBuild.StorePerformance | app/services/index_service.py:383-394 | `ON CONFLICT (date) DO UPDATE`: the new row is present and rows of other dates survive; on a table keyed by date the old row of that date is replaced, so the date keeps one row; a fresh date is appended |
| IndexBuild.PriceRelative | app/services/index_service.py:344-361 | `curr/prev - 1` for a ticker with both closes and 0 for one the join drops; not a finite number exactly when the previous close is 0; -1 when the current close is 0; above -1 when every close is positive |
| IndexBuild.ReturnSum | app/services/index_service.py:344-366 | 0 when no ticker is priced on both dates; when every close is positive, a number above minus the count of tickers |
| IndexBuild.ReturnSumUndefined | app/services/index_service.py:356-366 | the sum is not a finite number exactly when some ticker joins with a previous close of 0 |
| IndexBuild.ReturnOverRows | app/services/index_service.py:328-368 | 0 without a previous composition or when no member is priced on both dates; otherwise the sum divided by the previous composition's size; not finite exactly when the sum is not; above -1 when every close is positive |
| IndexBuild.DailyReturn | app/services/index_service.py:328-368 | the return read from the composition table is 0 when the previous date holds no composition, and above -1 when every close is positive |
| IndexBuild.DailyReturnUndefined | app/services/index_service.py:328-366 | the return is not a finite number exactly when a member of the previous date's composition has a previous close of 0 |
| IndexBuild.Weight | app/services/index_service.py:58 | `1.0 / index_size` is positive, and `index_size` of them make up exactly 1 |
| IndexBuild.Compound | app/services/index_service.py:75 | `previous_value * (1 + r)` moves the value by the relative change `r`, and stays positive for a positive value and `r > -1` |
| IndexBuild.Advance | app/services/index_service.py:49-85 | one iteration: a short selection changes nothing; a raise happens only on a processed later date and leaves the performance table alone; a processed date counts once and writes a row of its date valued at 1000 on the first date or at the new value; prices and stocks are untouched |
| IndexBuild.FirstHalt | app/services/index_service.py:49-85 | the index of the first date whose iteration raises, with none raising before it, or the number of dates when none raises |
| IndexBuild.FirstHaltIs | app/services/index_service.py:49-85 | a date reached with no raise before it, and which raises or ends the dates, is the first raising date |
| IndexBuild.PlanRecordsReturns | app/services/index_service.py:67-73 | the return recorded for each later date is `_calculate_daily_return` over the rows selected for the previous trading date |
| IndexBuild.AdvanceSkipped | app/services/index_service.py:53-55 | a date with too few stocks changes nothing |
| IndexBuild.AdvanceFirst | app/services/index_service.py:64-66 | the first trading date, when processed, is written at the base value |
| IndexBuild.AdvanceLater | app/services/index_service.py:67-85 | a later processed date chains the value through the return read back from the store |
| IndexBuild.PreviousRowsAreSelection | app/services/index_service.py:69-73 | while the loop runs, the rows stored for the previous trading date are that date's selection |
| IndexBuild.ReturnStepMatches | app/services/index_service.py:69-73 | the return computed from the store equals the return of the description |
| IndexBuild.StepOnce | app/services/index_service.py:49-87 | one loop iteration takes the described state of `dates[..i]` to that of `dates[..i+1]` |
| IndexBuild.RunLoop | app/services/index_service.py:45-87 | the loop ends as the date-by-date description says: completed with the described state for every date, or raised at the first date whose return is not a finite number, with that date's composition written and its point not |
| IndexBuild.Rebuild | app/services/index_service.py:36-87 | clear, trading dates and loop end as `Described` says, and report `NoTradingData` exactly when the range has no trading date |
| RebuildProperties.CompositionOfDate | app/services/index_service.py:60-61 | after the walk, each trading date holds exactly the rows selected for it |
| RebuildProperties.PerformanceOfDate | app/services/index_service.py:63-83 | after the walk, each trading date holds its point if processed and no row otherwise |
| RebuildProperties.ValuePositive | app/services/index_service.py:75 | when every close is positive, `previous_value` stays positive |
| RebuildProperties.ReturnAboveMinusOne | app/services/index_service.py:69-75 | when every close is positive, every later date's return is a finite number above -1 |
| RebuildProperties.ValueIsLastWritten | app/services/index_service.py:75-85 | `previous_value` is the value of the last row written, or the base value before any |
| RebuildProperties.CumulativeMatchesValue | app/services/index_service.py:76 | every written point has `cumulative_return == (value / 1000 - 1) * 100` |
| RebuildProperties.CountIsPoints | app/services/index_service.py:87 | `dates_processed` is the number of performance rows written |
| RebuildProperties.SkippedPreviousGivesZero | app/services/index_service.py:69-75 | after a skipped date the return is 0, the iteration does not raise, and the value carries over |
| RebuildProperties.BaseUntilFirstProcessed | app/services/index_service.py:46-55 | until a date is processed, nothing is written and the value is the base value |
| RebuildProperties.FirstPointIsBase | app/services/index_service.py:64-83 | the first processed date is written at `(1000, 0, 0)`, even when it is not the first trading date |
| RebuildProperties.SelectionOfDate | app/services/index_service.py:51-61 | a date is processed exactly when it has `index_size` candidates, and then holds the top rows |
| RebuildProperties.SelectedRows | app/services/index_service.py:51-61 | a processed date holds exactly `index_size` rows, with distinct tickers, positive caps, weight `1/size`, in descending cap order, all drawn from its candidates |
| RebuildProperties.SelectedRowsDominate | app/services/index_service.py:315-321 | no candidate left out of a processed date has a larger cap than a held stock |
| RebuildProperties.WeightsSumToOne | app/services/index_service.py:58 | the weights of a processed date sum to 1 |
| RebuildProperties.ReturnOverPreviousComposition | app/services/index_service.py:69-73 | after a processed date, the return is the sum of relatives over its composition divided by `index_size` |
| RebuildProperties.DescribedKeepsOutside | app/services/index_service.py:36-37 | rows outside the range, prices and stocks are unchanged by a rebuild |
| RebuildProperties.DescribedEmptyRange | app/services/index_service.py:37-43 | a range without trading dates fails after its rows were already deleted |
| RebuildProperties.DescribedNothingOff | app/services/index_service.py:40-61 | a day of the range without prices ends with no rows |
| RebuildProperties.HaltIndex | app/services/index_service.py:49-85 | the index into the trading dates where the rebuild raises, at most their count |
| RebuildProperties.DescribedOutcome | app/services/index_service.py:49-87 | a rebuild with trading dates completes exactly when no iteration raises, and otherwise raises at the first date whose return is not a finite number |
| RebuildProperties.PositiveClosesComplete | app/services/index_service.py:49-87 | when every close is positive, a rebuild with trading dates always completes |
| RebuildProperties.DescribedCompositionAt | app/services/index_service.py:49-61 | a trading date up to the raising one holds the top rows when it has enough candidates, and every other trading date holds no rows |
| RebuildProperties.DescribedPointAt | app/services/index_service.py:63-85 | a trading date before the raising one holds its point when it has enough candidates, and every other trading date holds no performance row |
| RebuildProperties.DescribedCount | app/services/index_service.py:87-95 | the reported count is the number of performance rows the rebuild added |
| RebuildProperties.ClearRangeIdempotent | app/services/index_service.py:396-405 | clearing twice equals clearing once |
| RebuildProperties.ClearAfterRebuild | app/services/index_service.py:36-87 | a rebuild only touches the range: clearing it afterwards gives the cleared original |
| RebuildProperties.RebuildIdempotent | app/services/index_service.py:26-98 | rebuilding a range twice equals rebuilding it once, in tables and report |
| Cache.PerformanceKey | app/db/cache.py:84-86 | the key is `index:performance:` followed by `start:end` |
| Cache.CompositionKey | app/db/cache.py:89-91 | the key is `index:composition:` followed by the date text |
| Cache.ChangesKey | app/db/cache.py:94-96 | the key is `index:changes:` followed by `start:end` |
| Cache.NamespacesDisjoint | app/db/cache.py:84-96 | no key is in two of the three namespaces |
| Cache.CompositionKeyInjective | app/db/cache.py:89-91 | the composition key determines its date text |
| Cache.RangeKeysInjective | app/db/cache.py:84-96 | range keys with colon-free bounds determine both bounds |
| Cache.Get | app/db/cache.py:25-33 | a document exactly when the backend answers and the key holds readable JSON, and then that document |
| Cache.EffectiveTtl | app/db/cache.py:38 | `ttl or default_ttl`: None and 0 fall back to the default |
| Cache.Set | app/db/cache.py:35-42 | for an encodable value: stores it and reports True exactly when the backend answers and the TTL is positive; otherwise nothing changes |
| Cache.SetAsWritten | app/db/cache.py:35-42 | a value `json.dumps` rejects is not stored and `False` is reported |
| Cache.Delete | app/db/cache.py:44-49 | removes exactly the key and reports whether it was there; a failing backend changes nothing |
| Cache.PrefixStarMatches | app/db/cache.py:54 | under Redis glob matching, a literal prefix followed by `*` matches a key exactly when the key starts with the prefix |
| Cache.KeysWithPrefixMatch | app/db/cache.py:54 | `KEYS prefix*` for a literal prefix returns exactly the keys the glob matches, which are the keys starting with the prefix |
| Cache.DeletePattern | app/db/cache.py:51-59 | removes exactly the keys matching `prefix*` and reports how many; 0 and no change on failure |
| Cache.SetThenGet | app/db/cache.py:25-42 | a value stored is read back |
| Cache.SetLeavesOtherKeys | app/db/cache.py:35-42 | setting one key leaves every other reading as it was |
| Cache.DeleteThenGet | app/db/cache.py:25-49 | a deleted key misses and other keys read as before |
| Invalidation.DayKeyStep | app/services/index_service.py:413-416 | the days of `[current, end]` are `current` and the days after it |
| Invalidation.DeleteDays | app/services/index_service.py:413-416 | the walk removes exactly the composition keys of the days of the range, and overflows exactly when it reaches `date.max` |
| Invalidation.PatternsAreLiteral | app/services/index_service.py:410-419 | the two patterns are literal prefixes followed by `*` |
| Invalidation.InvalidateCache | app/services/index_service.py:407-419 | removes every performance key, the day keys of the range and every changes key, and nothing else; an overflow stops it before the changes keys |
| Invalidation.OutsideDaysKept | app/services/index_service.py:412-416 | compositions cached for days outside the range survive |
| Invalidation.InvalidatedKeysMiss | app/services/index_service.py:407-419 | after a completed invalidation, every invalidated key misses |
| Invalidation.ForeignKeysKept | app/services/index_service.py:407-419 | keys outside the three namespaces are never touched |
| Queries.Joined | app/services/index_service.py:161-173 | the join keeps exactly the rows whose ticker is a stock, and all of them under the foreign key |
| Queries.SortHoldings | app/services/index_service.py:172 | `ORDER BY market_cap DESC` gives a descending sequence of the same holdings |
| Queries.SortHoldingsPermutes | app/services/index_service.py:172 | the ordering is a permutation |
| Queries.CompositionOn | app/services/index_service.py:160-194 | the error exactly when no row of the date joins; otherwise the date's joined holdings, descending, with `total_stocks` their number |
| Queries.CompositionCountsRows | app/services/index_service.py:160-194 | under the foreign key, the error exactly when the date has no rows, and otherwise each row listed once |
| Queries.PerformanceRows | app/services/index_service.py:109-114 | exactly the range's rows, ascending by date |
| Queries.PerformanceRowsIncrease | app/services/index_service.py:109-114 | with one row per date, each row of the range appears once, strictly ascending |
| Queries.Returns | app/services/index_service.py:122 | the `daily_return` column, row by row |
| Queries.Mean | app/services/index_service.py:122 | `mean()`: taken once per row, the mean makes up the column's sum |
| Queries.MeanBetween | app/services/index_service.py:122-125 | the mean lies between the column's minimum and maximum |
| Queries.MeanWithin | app/services/index_service.py:122 | bounds every entry shares bound the mean |
| Queries.Max | app/services/index_service.py:124 | bounds every return and is one of them |
| Queries.Min | app/services/index_service.py:125 | is bounded by every return and is one of them |
| Queries.SharpeRatioAsWritten | app/services/index_service.py:421-441 | the ratio as written, 0 with fewer than two returns or no deviation |
| Queries.SharpeRatio | app/services/index_service.py:421-441 | the corrected ratio, 0 with fewer than two returns or no deviation |
| Queries.SharpeSign | app/services/index_service.py:436-440 | the corrected ratio is positive exactly when the annualised mean beats 2%, and 0 exactly when it equals it |
| Queries.SharpeAsWrittenOverstates | app/services/index_service.py:436-440 | the written ratio exceeds the corrected one by `1.98 / (std * sqrt(252))` |
| Queries.BreakEvenLooksPositive | app/services/index_service.py:436-440 | returns that annualise to exactly 2% give a corrected ratio of 0 and a positive written one |
| Queries.Summarise | app/services/index_service.py:119-127 | (corrected) the last cumulative return; with two or more rows the mean, deviation, extremes and corrected Sharpe ratio of the returns, otherwise zeros |
| Queries.SummariseAsWritten | app/services/index_service.py:119-127 | the summary the program reports: the corrected summary with the Sharpe ratio as written, equal to it below two rows and above it when the deviation is positive |
| Queries.PointOf | app/services/index_service.py:129-137 | a row's date and value are kept, and a return of 0 is reported as `None`, any other as itself |
| Queries.Points | app/services/index_service.py:129-137 | each row reported in order, as `PointOf` gives it |
| Queries.PerformanceIn | app/services/index_service.py:108-145 | (corrected) the error exactly when the range has no row; otherwise the range's points in date order, their count, and their corrected summary |
| Queries.PerformanceInAsWritten | app/services/index_service.py:108-145 | the reply the program computes: the same error, and otherwise the corrected reply with the summary as written |
| Queries.ChangeDates | app/services/index_service.py:211-221 | the distinct composition dates of the range, strictly ascending |
| Queries.Details | app/services/index_service.py:246-279 | the detail query lists exactly the joined rows of the date whose tickers are in the set |
| Queries.Compare | app/services/index_service.py:226-286 | a record exactly when the two ticker sets differ, dated on the later date, counting its entries, added entries entering and removed ones leaving |
| Queries.ChangeTickers | app/services/index_service.py:238-279 | under the foreign key, the added and removed entries name exactly the entering and leaving tickers |
| Queries.Kept | app/services/index_service.py:242-286 | exactly the records the comparisons produced |
| Queries.KeptIncrease | app/services/index_service.py:225-286 | records along ascending dates come out strictly ascending |
| Queries.ComparisonsAt | app/services/index_service.py:225-242 | comparison `k` is dated `dates[k+1]` and present exactly when the ticker sets differ |
| Queries.ChangesAlong | app/services/index_service.py:222-286 | the records are exactly those of the differing consecutive pairs, in strictly ascending date order |
| Queries.KeptAlong | app/services/index_service.py:222-286 | a record is kept exactly when some consecutive pair produced it |
| Queries.KeptAlongInOrder | app/services/index_service.py:222-286 | the kept records are in strictly ascending date order |
| Queries.CompositionChanges | app/services/index_service.py:209-293 | the error exactly when the range has no composition row; otherwise exactly the records of the differing consecutive dates, with their count |
| Queries.ChangesInDateOrder | app/services/index_service.py:211-286 | the reported records are strictly ascending by date |
| Queries.ChangeReportedIff | app/services/index_service.py:224-286 | a composition date gets a record exactly when its ticker set differs from the previous composition date's |
| IndexService.ReadThrough | app/services/index_service.py:100-150 | a truthy hit is returned unchanged; a miss returns the computed reply, caches it when it is not an error, and touches no other key |
| IndexService.ReadThroughAsWritten | app/db/cache.py:35-42 | as written, a miss never changes the cache |
| IndexService.SecondReadHits | app/services/index_service.py:152-199 | once a reply is stored, the next read of the key is a hit that changes nothing |
| IndexService.AsWrittenMissRepeats | app/db/cache.py:35-42 | as written, every later read recomputes the reply |
| IndexService.GetComposition | app/services/index_service.py:152-199 | (corrected) a hit returns the cached reply and leaves the cache alone; a miss answers from `CompositionOn` and stores an `Ok` reply under the date's key when the backend answers and the default TTL is positive |
| IndexService.GetCompositionAsWritten | app/services/index_service.py:152-199 | as written: a hit returns the cached reply, a miss answers from `CompositionOn`, and the cache never changes |
| IndexService.GetPerformance | app/services/index_service.py:100-150 | (corrected) a hit returns the cached reply and leaves the cache alone; a miss answers from `PerformanceIn` and stores an `Ok` reply under the range's key when the backend answers and the default TTL is positive |
| IndexService.GetPerformanceAsWritten | app/services/index_service.py:100-150 | as written: a hit returns the cached reply, a miss answers from `PerformanceInAsWritten`, and the cache never changes |
| IndexService.PerformanceAsWrittenDiffers | app/services/index_service.py:119-127 | on a miss, the reply as written and the corrected one fail together and differ only in the Sharpe ratio, which as written is larger once two rows have a positive deviation |
| IndexService.GetChanges | app/services/index_service.py:201-298 | (corrected) a hit returns the cached reply and leaves the cache alone; a miss answers from `CompositionChanges` and stores an `Ok` reply under the range's key when the backend answers and the default TTL is positive |
| IndexService.GetChangesAsWritten | app/services/index_service.py:201-298 | as written: a hit returns the cached reply, a miss answers from `CompositionChanges`, and the cache never changes |
| IndexService.LatestDate | app/services/index_service.py:31-34 | `MAX(date)`: NULL exactly for an empty table, otherwise a price date no earlier than any other |
| IndexService.BuildIndex | app/services/index_service.py:26-98 | the NULL end fails with nothing changed; otherwise the store is rebuilt; the no-data error and a return that is not a finite number leave the cache alone; success invalidates the cache and reports the count, or overflows at `date.max` |
| IndexService.ReadsAfterBuildAreFresh | app/services/index_service.py:89-90 | after a completed rebuild and invalidation, compositions in the range and every range reply are read from the rebuilt store, by the corrected and the as-written getters alike |
| IndexService.BuiltComposition | app/services/index_service.py:49-61 | a rebuilt trading date up to the raising one reports a composition exactly when it had `index_size` candidates, and then `index_size` holdings of weight `1/size` with positive caps |
| IndexService.UnpricedDayHasNoComposition | app/services/index_service.py:40-61 | a day of the range without prices reports no composition after a rebuild |
| Ingest.Frame | data_acquisition/fetch_data.py:176-196 | exactly the complete quotes become rows, each carrying `close * shares` as its market cap |
| Ingest.Concat | data_acquisition/fetch_data.py:256 | the combined rows are exactly the rows of the frames |
| Ingest.CountOnAppend | data_acquisition/fetch_data.py:259 | the rows a date has in two concatenated frames are the rows it has in each, added |
| Ingest.ConcatCounts | data_acquisition/fetch_data.py:256-259 | the combined rows keep every downloaded row with its multiplicity: a date's count is the first frame's count plus the rest's |
| Ingest.CountOnDateFilter | data_acquisition/fetch_data.py:259-263 | a filter that keeps or drops whole dates keeps the count of every date it keeps |
| Ingest.SortRows | data_acquisition/fetch_data.py:266 | sorted by `(date, ticker)`, with the same rows |
| Ingest.SortRowsPermutes | data_acquisition/fetch_data.py:266 | the sort is a permutation |
| Ingest.SortRowsCounts | data_acquisition/fetch_data.py:266 | the sort keeps every date's count |
| Ingest.FilterSorted | data_acquisition/fetch_data.py:274 | filtering keeps the order |
| Ingest.CoveredRows | data_acquisition/fetch_data.py:259-266 | exactly the rows of dates with at least five rows, sorted |
| Ingest.Cutoff | data_acquisition/fetch_data.py:268-273 | `all_dates[-min_trading_days]` is one of the dates; on ascending dates it is no later than any date for 0, and otherwise no later than exactly the last `min_trading_days` dates |
| Ingest.KeepRecent | data_acquisition/fetch_data.py:268-274 | only removes rows |
| Ingest.KeepRecentDates | data_acquisition/fetch_data.py:268-274 | with more than `min_trading_days` dates, a row is kept exactly when its date is among the latest `min_trading_days`; otherwise, or for 0, all rows are kept |
| Ingest.RecentDate | data_acquisition/fetch_data.py:268-273 | on the ascending distinct dates, a date is on or after `all_dates[-min_trading_days]` exactly when it is one of the latest `min_trading_days` dates |
| Ingest.RecentAfterDropped | data_acquisition/fetch_data.py:268-274 | no kept row is dated before a dropped one |
| Ingest.ProcessKeepsLatest | data_acquisition/fetch_data.py:259-274 | the recency cut keeps exactly the covered rows of the latest covered dates |
| Ingest.Process | data_acquisition/fetch_data.py:258-274 | the processed frame is sorted by `(date, ticker)` and holds only input rows of dates quoted at least five times |
| Ingest.ProcessProperties | data_acquisition/fetch_data.py:255-276 | the result is sorted, takes rows of the input unchanged, keeps every row of each date it keeps, and every date has at least five rows |
| Ingest.FetchHistorical | data_acquisition/fetch_data.py:252-276 | the error exactly when no download yields a row; otherwise the processed combination |

## Left out

- Downloads, the database connection, Redis I/O, logging and the clock are
  not modelled. A download is a parameter, the store is a value and the cache
  is a map.
- The yfinance calls, the shares-outstanding lookup and estimate
  (`data_acquisition/fetch_data.py:164-174`) and the individual-download
  fallback (`data_acquisition/fetch_data.py:206-250`) are not modelled. The
  shares figure is a field of the download.
- Floating point is not modelled: prices, caps and returns are mathematical
  reals. The sample standard deviation and `252 ** 0.5` are parameters of the
  summary and the Sharpe ratio.
- Whether a pandas NaN becomes a polars null is not modelled. A missing value
  is `None`.
- The order among equal market caps is left open, as SQL leaves it. The model
  picks one order, and its contracts hold for every order.
- `index_size <= 0` and a negative `min_trading_days` are not modelled.
  `index_size` is a positive natural number, which `1.0 / index_size` needs.
  `min_trading_days` is a natural number.
- TTL expiry, concurrent requests and transactions are not modelled.
- The widths of the DECIMAL columns (`app/db/database.py:74-97`) are not
  modelled, so stored values are the exact reals the engine computes. The
  columns round weights to four places and returns to six. A percent
  `cumulative_return` of 100 or more, an index value of 2000 or more, does
  not fit `DECIMAL(8, 6)`.
- RebuildProperties.WeightsSumToOne: states the weights as computed. The
  column rounds each one to four places, so three weights of 0.3333 sum to
  0.9999.
- The `drop_nulls()` of `_calculate_sharpe_ratio` is not modelled. The store
  never holds a null `daily_return`, so there is nothing for it to drop.
- `exists`, `ping` and `clear_all` of the cache are not used by the engine,
  and are not modelled.
- `Queries.Summarise`: the volatility is stated only as the supplied
  deviation function applied to the returns, because the sample standard
  deviation is floating point and is not modelled.
- A previous close of 0 makes `curr_close / prev_close` infinite, or NaN
  when the current close is 0 too. The model reports such a return as not a
  finite number. The rebuild then ends with `ReturnNotFinite` at that date,
  with the date's composition committed and its performance row not
  written. Which layer rejects the value (the insert into a DECIMAL column)
  and its error message are not modelled.
- RebuildProperties.ValuePositive: holds only when every close is positive.
  A current close of 0 for every member gives a return of -1 and a value of
  0, and the schema does not rule out negative closes.

## Findings

| source | as written | input that shows it | evidently intended | confidence | as-written member | corrected member |
|---|---|---|---|---|---|---|
| app/db/cache.py:39 | `json.dumps(value)` is called on replies that hold `datetime.date` values. It raises `TypeError`, the error is swallowed, and `set` returns `False`. | Any `get_composition(date(2024, 1, 2))` miss: the reply `{"date": date(2024, 1, 2), ...}` is never stored, so every later call misses again | Replies are stored, so the next read of the same key is a hit | not executed | Cache.SetAsWritten, IndexService.ReadThroughAsWritten, IndexService.GetCompositionAsWritten, IndexService.GetPerformanceAsWritten, IndexService.GetChangesAsWritten | Cache.Set, IndexService.ReadThrough, IndexService.GetComposition, IndexService.GetPerformance, IndexService.GetChanges |
| app/services/index_service.py:440 | `annual_return - risk_free_rate` subtracts the fraction 0.02 from an annual return in percent, because `daily_return` is stored multiplied by 100 | Two days with `daily_return` 1/252 and 3/252 (percent): their mean annualises to exactly 2% and they vary, yet the ratio is positive | Subtract the rate in percent, 2.0, so a return equal to the risk-free rate gives 0 | not executed | Queries.SharpeRatioAsWritten, Queries.SummariseAsWritten, Queries.PerformanceInAsWritten | Queries.SharpeRatio, Queries.Summarise, Queries.PerformanceIn |

The read-through consequence of the first finding is modelled twice. As
written, it is `IndexService.ReadThroughAsWritten`, and
`IndexService.AsWrittenMissRepeats` shows that every read misses. Corrected,
it is `IndexService.ReadThrough`, and `IndexService.SecondReadHits` shows
that the second read hits. `Queries.SharpeAsWrittenOverstates` and
`Queries.BreakEvenLooksPositive` exhibit the second finding. Both findings
reach the getters. The getters marked "(corrected)" use the corrected
definitions. `IndexService.GetCompositionAsWritten`,
`IndexService.GetPerformanceAsWritten` and `IndexService.GetChangesAsWritten`
return what the program returns, and `IndexService.PerformanceAsWrittenDiffers`
shows where the two performance replies part.
