/**
  `IndexService._invalidate_cache(start, end)`: after a rebuild, drop every
  cached performance reply, the cached composition of each calendar day of
  the range, and every cached changes reply.
*/
module Invalidation {
  import opened Wrappers
  import opened Dates
  import opened Cache

  const PerformancePattern: string := PerformanceNamespace + "*"
  const ChangesPattern: string := ChangesNamespace + "*"

  /** `k` is the composition key of a calendar day in `[start, end]`. */
  ghost predicate DayKeyIn(k: string, start: Date, end: Date)
  {
    exists d: Date :: InRange(d, start, end) && k == CompositionKey(IsoText(d))
  }

  /** The keys a complete invalidation of `[start, end]` removes. */
  ghost predicate Invalidated(k: string, start: Date, end: Date)
  {
    HasPrefix(k, PerformanceNamespace) || DayKeyIn(k, start, end) || HasPrefix(k, ChangesNamespace)
  }

  /**
    How the day walk ends: past `end`, or with the `OverflowError` that
    `current += timedelta(days=1)` raises after deleting the key of `date.max`.
  */
  datatype WalkEnd = Finished | DateOverflow

  /** The days of `[current, end]` are `current` followed by the days of `[current + 1, end]`. */
  lemma DayKeyStep(k: string, current: Date, end: Date)
    requires NotAfter(current, end)
    ensures DayKeyIn(k, current, end) <==>
      k == CompositionKey(IsoText(current)) || (current != LastDate && DayKeyIn(k, Next(current), end))
  {
    if DayKeyIn(k, current, end) && k != CompositionKey(IsoText(current)) {
      var d: Date :| InRange(d, current, end) && k == CompositionKey(IsoText(d));
      assert d != current;
      SortKeyInjective(d, current);
      NotAfterLast(d);
      assert current != LastDate;
      NextIsImmediate(current, d);
      assert InRange(d, Next(current), end);
    }
    if current != LastDate && DayKeyIn(k, Next(current), end) {
      var d: Date :| InRange(d, Next(current), end) && k == CompositionKey(IsoText(d));
      NextIsImmediate(current, d);
      assert InRange(d, current, end);
    }
    assert InRange(current, current, end);
  }

  /** An empty range of days has no keys. */
  lemma NoDayKeys(k: string, current: Date, end: Date)
    requires !NotAfter(current, end)
    ensures !DayKeyIn(k, current, end)
  {
  }

  /**
    The `while current <= end_date` loop: deletes the composition key of
    each day from `current` to `end`, one `cache.delete` per day.
  */
  function DeleteDays<V>(c: RedisCache<V>, current: Date, end: Date): (r: (RedisCache<V>, WalkEnd))
    ensures r.0.defaultTtl == c.defaultTtl && r.0.available == c.available
    ensures r.1 == DateOverflow <==> NotAfter(current, end) && end == LastDate
    ensures c.available ==> forall k :: k in r.0.entries <==> k in c.entries && !DayKeyIn(k, current, end)
    ensures forall k :: k in r.0.entries ==> k in c.entries && r.0.entries[k] == c.entries[k]
    ensures !c.available ==> r.0 == c
    decreases SortKey(end) - SortKey(current)
  {
    if !NotAfter(current, end) then
      assert forall k :: !DayKeyIn(k, current, end) by {
        forall k ensures !DayKeyIn(k, current, end) { NoDayKeys(k, current, end); }
      }
      (c, Finished)
    else
      var key := CompositionKey(IsoText(current));
      var c1 := Delete(c, key).0;
      if current == LastDate then
        NotAfterLast(end);
        SortKeyInjective(end, LastDate);
        assert forall k :: DayKeyIn(k, current, end) <==> k == key by {
          forall k ensures DayKeyIn(k, current, end) <==> k == key { DayKeyStep(k, current, end); }
        }
        (c1, DateOverflow)
      else
        var r := DeleteDays(c1, Next(current), end);
        assert end == LastDate ==> NotAfter(Next(current), end) by {
          if end == LastDate {
            SortKeyInjective(current, end);
            NextIsImmediate(current, end);
          }
        }
        assert forall k :: DayKeyIn(k, current, end) <==> k == key || DayKeyIn(k, Next(current), end) by {
          forall k ensures DayKeyIn(k, current, end) <==> k == key || DayKeyIn(k, Next(current), end) {
            DayKeyStep(k, current, end);
          }
        }
        r
  }

  lemma PatternsAreLiteral()
    ensures PerformancePattern[..|PerformancePattern| - 1] == PerformanceNamespace
    ensures ChangesPattern[..|ChangesPattern| - 1] == ChangesNamespace
    ensures IsLiteralGlobText(PerformanceNamespace) && IsLiteralGlobText(ChangesNamespace)
  {
    assert PerformancePattern[..|PerformancePattern| - 1] == PerformanceNamespace;
    assert ChangesPattern[..|ChangesPattern| - 1] == ChangesNamespace;
  }

  /**
    `_invalidate_cache(start, end)`: `delete_pattern("index:performance:*")`,
    the day walk over `[start, end]`, then `delete_pattern("index:changes:*")`.
    An overflow of the walk ends the call before the changes namespace is
    cleared. A failing backend leaves the cache as it was.
  */
  function InvalidateCache<V>(c: RedisCache<V>, start: Date, end: Date): (r: (RedisCache<V>, WalkEnd))
    ensures r.1 == DateOverflow <==> NotAfter(start, end) && end == LastDate
    ensures c.available && r.1 == Finished ==>
      forall k :: k in r.0.entries <==> k in c.entries && !Invalidated(k, start, end)
    ensures c.available && r.1 == DateOverflow ==>
      forall k :: k in r.0.entries <==> k in c.entries && !HasPrefix(k, PerformanceNamespace) && !DayKeyIn(k, start, end)
    ensures forall k :: k in r.0.entries ==> k in c.entries && r.0.entries[k] == c.entries[k]
    ensures r.0.defaultTtl == c.defaultTtl && r.0.available == c.available
    ensures !c.available ==> r.0 == c
  {
    PatternsAreLiteral();
    var c1 := DeletePattern(c, PerformancePattern).0;
    var walked := DeleteDays(c1, start, end);
    if walked.1 == DateOverflow then walked
    else (DeletePattern(walked.0, ChangesPattern).0, Finished)
  }

  /** The cached composition of a day outside `[start, end]` reads as before. */
  lemma OutsideDaysKept<V>(c: RedisCache<V>, start: Date, end: Date, d: Date)
    requires !InRange(d, start, end)
    ensures Get(InvalidateCache(c, start, end).0, CompositionKey(IsoText(d))) == Get(c, CompositionKey(IsoText(d)))
  {
    var k := CompositionKey(IsoText(d));
    NamespacesDisjoint(k);
    if DayKeyIn(k, start, end) {
      var e: Date :| InRange(e, start, end) && k == CompositionKey(IsoText(e));
      CompositionKeyInjective(IsoText(d), IsoText(e));
      IsoTextInjective(d, e);
    }
    assert !Invalidated(k, start, end);
  }

  /** After a completed invalidation every invalidated key reads as a miss. */
  lemma InvalidatedKeysMiss<V>(c: RedisCache<V>, start: Date, end: Date, k: string)
    requires c.available && Invalidated(k, start, end)
    requires InvalidateCache(c, start, end).1 == Finished
    ensures Get(InvalidateCache(c, start, end).0, k) == None
  {
  }

  /** Keys outside the index namespaces, and range keys of other namespaces, are never touched. */
  lemma ForeignKeysKept<V>(c: RedisCache<V>, start: Date, end: Date, k: string)
    requires !HasPrefix(k, PerformanceNamespace) && !HasPrefix(k, CompositionNamespace) && !HasPrefix(k, ChangesNamespace)
    ensures Get(InvalidateCache(c, start, end).0, k) == Get(c, k)
  {
    forall e: Date | InRange(e, start, end) ensures k != CompositionKey(IsoText(e)) {
    }
    assert !Invalidated(k, start, end);
  }
}
