/**
  Calendar dates as Python's `datetime.date` holds them (years 1 to 9999,
  proleptic Gregorian calendar), their order, the one-day step
  `date + timedelta(days=1)`, and the text `str(date)` that cache keys embed.
*/
module Dates {

  datatype CalendarDate = CalendarDate(year: int, month: int, day: int)

  predicate IsLeapYear(year: int)
  {
    year % 4 == 0 && (year % 100 != 0 || year % 400 == 0)
  }

  function DaysInMonth(year: int, month: int): int
  {
    if month == 2 then (if IsLeapYear(year) then 29 else 28)
    else if month == 4 || month == 6 || month == 9 || month == 11 then 30
    else 31
  }

  predicate IsValid(d: CalendarDate)
  {
    1 <= d.year <= 9999 && 1 <= d.month <= 12 && 1 <= d.day <= DaysInMonth(d.year, d.month)
  }

  /** A date Python can represent. */
  type Date = d: CalendarDate | IsValid(d) witness CalendarDate(1970, 1, 1)

  /** `date.max`: the day after it raises `OverflowError`. */
  const LastDate: Date := CalendarDate(9999, 12, 31)

  /** The date packed as the number YYYYMMDD. */
  function SortKey(d: CalendarDate): int
  {
    d.year * 10000 + d.month * 100 + d.day
  }

  /** `a < b` on dates. */
  predicate Before(a: Date, b: Date)
  {
    SortKey(a) < SortKey(b)
  }

  /** `a <= b` on dates. */
  predicate NotAfter(a: Date, b: Date)
  {
    SortKey(a) <= SortKey(b)
  }

  /** `start <= d <= end`, the SQL `date >= ? AND date <= ?`. */
  predicate InRange(d: Date, start: Date, end: Date)
  {
    NotAfter(start, d) && NotAfter(d, end)
  }

  /** The packed order is the calendar order: year first, then month, then day. */
  lemma BeforeIsCalendarOrder(a: Date, b: Date)
    ensures Before(a, b) <==>
      a.year < b.year ||
      (a.year == b.year && (a.month < b.month || (a.month == b.month && a.day < b.day)))
  {
    DaysInMonthBounds(a.year, a.month);
    DaysInMonthBounds(b.year, b.month);
  }

  /** Two dates with the same packed number are the same date. */
  lemma SortKeyInjective(a: Date, b: Date)
    ensures SortKey(a) == SortKey(b) ==> a == b
  {
    BeforeIsCalendarOrder(a, b);
    BeforeIsCalendarOrder(b, a);
  }

  lemma DaysInMonthBounds(year: int, month: int)
    ensures 28 <= DaysInMonth(year, month) <= 31
  {
  }

  /** No date is after `date.max`. */
  lemma NotAfterLast(d: Date)
    ensures NotAfter(d, LastDate)
  {
    DaysInMonthBounds(d.year, d.month);
  }

  /** The day after `d`: `d + timedelta(days=1)`. */
  function Next(d: Date): (n: Date)
    requires d != LastDate
    ensures Before(d, n)
  {
    if d.day < DaysInMonth(d.year, d.month) then CalendarDate(d.year, d.month, d.day + 1)
    else if d.month < 12 then CalendarDate(d.year, d.month + 1, 1)
    else CalendarDate(d.year + 1, 1, 1)
  }

  /** No date lies strictly between `d` and the day after it. */
  lemma NextIsImmediate(d: Date, e: Date)
    requires d != LastDate
    ensures Before(d, e) <==> NotAfter(Next(d), e)
  {
    DaysInMonthBounds(e.year, e.month);
    DaysInMonthBounds(d.year, d.month);
    if Before(d, e) {
      BeforeIsCalendarOrder(d, e);
      var n := Next(d);
      if d.day < DaysInMonth(d.year, d.month) {
        assert n == CalendarDate(d.year, d.month, d.day + 1);
      } else if d.month < 12 {
        assert n == CalendarDate(d.year, d.month + 1, 1);
      } else {
        assert n == CalendarDate(d.year + 1, 1, 1);
      }
    }
  }

  function DigitChar(n: int): (c: char)
    requires 0 <= n <= 9
    ensures '0' <= c <= '9'
  {
    (48 + n) as char
  }

  function TwoDigits(n: int): (s: string)
    requires 0 <= n <= 99
    ensures |s| == 2
  {
    [DigitChar(n / 10), DigitChar(n % 10)]
  }

  function FourDigits(n: int): (s: string)
    requires 0 <= n <= 9999
    ensures |s| == 4
  {
    TwoDigits(n / 100) + TwoDigits(n % 100)
  }

  /** `str(d)`: the ISO form YYYY-MM-DD, zero-padded. */
  function IsoText(d: Date): (s: string)
    ensures |s| == 10 && s[4] == '-' && s[7] == '-'
    ensures forall k :: 0 <= k < |s| ==> s[k] != ':'
  {
    FourDigits(d.year) + "-" + TwoDigits(d.month) + "-" + TwoDigits(d.day)
  }

  lemma TwoDigitsInjective(m: int, n: int)
    requires 0 <= m <= 99 && 0 <= n <= 99
    ensures TwoDigits(m) == TwoDigits(n) ==> m == n
  {
    if TwoDigits(m) == TwoDigits(n) {
      assert TwoDigits(m)[0] == TwoDigits(n)[0] && TwoDigits(m)[1] == TwoDigits(n)[1];
      assert m / 10 == n / 10 && m % 10 == n % 10;
    }
  }

  lemma FourDigitsInjective(m: int, n: int)
    requires 0 <= m <= 9999 && 0 <= n <= 9999
    ensures FourDigits(m) == FourDigits(n) ==> m == n
  {
    if FourDigits(m) == FourDigits(n) {
      assert FourDigits(m)[..2] == TwoDigits(m / 100) && FourDigits(n)[..2] == TwoDigits(n / 100);
      assert FourDigits(m)[2..] == TwoDigits(m % 100) && FourDigits(n)[2..] == TwoDigits(n % 100);
      TwoDigitsInjective(m / 100, n / 100);
      TwoDigitsInjective(m % 100, n % 100);
    }
  }

  /** Distinct dates have distinct text, so keys built from it never collide. */
  lemma {:induction false} IsoTextInjective(a: Date, b: Date)
    ensures IsoText(a) == IsoText(b) ==> a == b
  {
    var s, t := IsoText(a), IsoText(b);
    if s == t {
      assert s[..4] == FourDigits(a.year) && t[..4] == FourDigits(b.year);
      assert s[5..7] == TwoDigits(a.month) && t[5..7] == TwoDigits(b.month);
      assert s[8..] == TwoDigits(a.day) && t[8..] == TwoDigits(b.day);
      FourDigitsInjective(a.year, b.year);
      TwoDigitsInjective(a.month, b.month);
      TwoDigitsInjective(a.day, b.day);
    }
  }

  lemma BeforeTransitive(a: Date, b: Date, c: Date)
    requires Before(a, b) && Before(b, c)
    ensures Before(a, c)
  {
  }

  /** `s` is strictly ascending: the result of `SELECT DISTINCT date ... ORDER BY date`. */
  ghost predicate Increasing(s: seq<Date>)
  {
    forall i, j :: 0 <= i < j < |s| ==> Before(s[i], s[j])
  }

  lemma TailIncreasing(s: seq<Date>)
    requires Increasing(s) && s != []
    ensures Increasing(s[1..])
  {
    forall i, j | 0 <= i < j < |s[1..]| ensures Before(s[1..][i], s[1..][j]) {
      assert s[1..][i] == s[i + 1] && s[1..][j] == s[j + 1];
    }
  }

  lemma PrependIncreasing(d: Date, s: seq<Date>)
    requires Increasing(s) && forall k :: 0 <= k < |s| ==> Before(d, s[k])
    ensures Increasing([d] + s)
  {
    var r := [d] + s;
    forall i, j | 0 <= i < j < |r| ensures Before(r[i], r[j]) {
      if i == 0 {
        assert r[j] == s[j - 1];
      } else {
        assert r[i] == s[i - 1] && r[j] == s[j - 1];
      }
    }
  }

  /** Adds `d` to the ascending, duplicate-free `s`. */
  function InsertDate(d: Date, s: seq<Date>): (r: seq<Date>)
    requires Increasing(s)
    ensures Increasing(r)
    ensures forall e :: e in r <==> e == d || e in s
  {
    if s == [] then [d]
    else if d == s[0] then s
    else if Before(d, s[0]) then [d] + s
    else
      TailIncreasing(s);
      var tail := InsertDate(d, s[1..]);
      SortKeyInjective(d, s[0]);
      assert Before(s[0], d);
      assert forall k :: 0 <= k < |tail| ==> Before(s[0], tail[k]) by {
        forall k | 0 <= k < |tail| ensures Before(s[0], tail[k]) {
          assert tail[k] in tail;
          if tail[k] != d {
            var m :| 0 <= m < |s[1..]| && s[1..][m] == tail[k];
            assert s[m + 1] == tail[k];
          }
        }
      }
      PrependIncreasing(s[0], tail);
      [s[0]] + tail
  }

  /** The distinct dates of `ds` in ascending order. */
  function DistinctAscending(ds: seq<Date>): (r: seq<Date>)
    ensures Increasing(r)
    ensures forall e :: e in r <==> e in ds
  {
    if ds == [] then []
    else
      assert forall e :: e in ds <==> e == ds[0] || e in ds[1..];
      InsertDate(ds[0], DistinctAscending(ds[1..]))
  }
}
