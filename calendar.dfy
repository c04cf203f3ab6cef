/**
 * Gregorian dates as Python's `datetime.date` keeps them: the day after,
 * the day before, `date + timedelta(days = n)`, chronological order, the
 * calendar quarter and the `%Y%m%d` form used in index file names.
 */
module Calendar {
  import opened Numbers

  datatype Date = Date(year: int, month: int, day: int)

  /** A point in time as the feed reports it: its calendar date and the time of day, in seconds. */
  datatype Timestamp = Timestamp(date: Date, secondOfDay: nat)

  predicate IsLeapYear(y: int) {
    y % 4 == 0 && (y % 100 != 0 || y % 400 == 0)
  }

  function DaysInMonth(y: int, m: int): (n: int)
    requires 1 <= m <= 12
    ensures 28 <= n <= 31
  {
    if m == 2 then (if IsLeapYear(y) then 29 else 28)
    else if m == 4 || m == 6 || m == 9 || m == 11 then 30
    else 31
  }

  predicate IsValid(d: Date) {
    1 <= d.month <= 12 && 1 <= d.day <= DaysInMonth(d.year, d.month)
  }

  /** `a < b` between two `date` objects: chronological, which is the order of (year, month, day). */
  predicate Before(a: Date, b: Date) {
    a.year < b.year
    || (a.year == b.year && a.month < b.month)
    || (a.year == b.year && a.month == b.month && a.day < b.day)
  }

  lemma BeforeTransitive(a: Date, b: Date, c: Date)
    requires Before(a, b) && Before(b, c)
    ensures Before(a, c)
  {
  }

  /** `d + timedelta(days = 1)`. */
  function NextDay(d: Date): (r: Date)
    requires IsValid(d)
    ensures IsValid(r) && Before(d, r)
  {
    if d.day < DaysInMonth(d.year, d.month) then Date(d.year, d.month, d.day + 1)
    else if d.month < 12 then Date(d.year, d.month + 1, 1)
    else Date(d.year + 1, 1, 1)
  }

  /** No valid date lies strictly between a date and its next day. */
  lemma NextDayIsImmediate(d: Date, x: Date)
    requires IsValid(d) && IsValid(x) && Before(d, x)
    ensures x == NextDay(d) || Before(NextDay(d), x)
  {
  }

  /** `d - timedelta(days = 1)`. */
  function PrevDay(d: Date): (r: Date)
    requires IsValid(d)
    ensures IsValid(r) && Before(r, d)
    ensures NextDay(r) == d
  {
    if d.day > 1 then Date(d.year, d.month, d.day - 1)
    else if d.month > 1 then Date(d.year, d.month - 1, DaysInMonth(d.year, d.month - 1))
    else Date(d.year - 1, 12, 31)
  }

  /** `d + timedelta(days = n)` for `n >= 0`. */
  function Forward(d: Date, n: nat): (r: Date)
    requires IsValid(d)
    ensures IsValid(r) && r.year >= d.year
    decreases n
  {
    if n == 0 then d else Forward(NextDay(d), n - 1)
  }

  /** `d - timedelta(days = n)` for `n >= 0`. */
  function Backward(d: Date, n: nat): (r: Date)
    requires IsValid(d)
    ensures IsValid(r)
    decreases n
  {
    if n == 0 then d else Backward(PrevDay(d), n - 1)
  }

  /** `d + timedelta(days = n)`. */
  function AddDays(d: Date, n: int): (r: Date)
    requires IsValid(d)
    ensures IsValid(r)
  {
    if n >= 0 then Forward(d, n) else Backward(d, -n)
  }

  lemma {:induction false} ForwardStep(d: Date, n: nat)
    requires IsValid(d)
    ensures Forward(d, n + 1) == NextDay(Forward(d, n))
    decreases n
  {
    if n > 0 {
      ForwardStep(NextDay(d), n - 1);
    }
  }

  lemma {:induction false} ForwardAdd(d: Date, a: nat, b: nat)
    requires IsValid(d)
    ensures Forward(d, a + b) == Forward(Forward(d, a), b)
    decreases a
  {
    if a > 0 {
      ForwardAdd(NextDay(d), a - 1, b);
    }
  }

  /** Going `n` days back and then `n` days forward returns to the same date. */
  lemma {:induction false} ForwardBackward(d: Date, n: nat)
    requires IsValid(d)
    ensures Forward(Backward(d, n), n) == d
    decreases n
  {
    if n > 0 {
      var p := PrevDay(d);
      ForwardBackward(p, n - 1);
      ForwardStep(Backward(p, n - 1), n - 1);
    }
  }

  /** Each further day is strictly later. */
  lemma {:induction false} ForwardIsLater(d: Date, n: nat)
    requires IsValid(d) && n >= 1
    ensures Before(d, Forward(d, n))
    decreases n
  {
    if n > 1 {
      ForwardIsLater(NextDay(d), n - 1);
      BeforeTransitive(d, NextDay(d), Forward(NextDay(d), n - 1));
    }
  }

  /**
   * Walking one day at a time from `today - days_back` stays on or before
   * `today` for exactly `days_back + 1` steps.
   */
  lemma WalkReachesToday(today: Date, daysBack: nat, k: nat)
    requires IsValid(today)
    ensures !Before(today, Forward(Backward(today, daysBack), k)) <==> k <= daysBack
  {
    var start := Backward(today, daysBack);
    ForwardBackward(today, daysBack);
    if k <= daysBack {
      ForwardAdd(start, k, daysBack - k);
      if k < daysBack {
        ForwardIsLater(Forward(start, k), daysBack - k);
      }
    } else {
      ForwardAdd(start, daysBack, k - daysBack);
      ForwardIsLater(today, k - daysBack);
    }
  }

  /** Python's `(month - 1) // 3 + 1`: the calendar quarter, the one holding the month. */
  function Quarter(month: int): (q: int)
    requires 1 <= month <= 12
    ensures 1 <= q <= 4
    ensures 3 * (q - 1) < month <= 3 * q
  {
    (month - 1) / 3 + 1
  }

  /** `d.strftime("%Y%m%d")`. */
  function CompactDate(d: Date): (s: string)
    requires IsValid(d) && d.year >= 0
  {
    ZeroPad(d.year, 4) + ZeroPad(d.month, 2) + ZeroPad(d.day, 2)
  }

  /** For a four-digit year the compact date is eight digits that read as yyyymmdd. */
  lemma CompactDateDigits(d: Date)
    requires IsValid(d) && 0 <= d.year <= 9999
    ensures |CompactDate(d)| == 8 && AllDigits(CompactDate(d))
    ensures DigitsValue(CompactDate(d)) == d.year * 10000 + d.month * 100 + d.day
  {
    assert Pow10(2) == 100;
    assert Pow10(4) == 10000;
    var y, m, dd := ZeroPad(d.year, 4), ZeroPad(d.month, 2), ZeroPad(d.day, 2);
    ZeroPadExact(d.year, 4);
    ZeroPadExact(d.month, 2);
    ZeroPadExact(d.day, 2);
    DigitsValueAppend(y, m);
    DigitsValueAppend(y + m, dd);
  }
}
