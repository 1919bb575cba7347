/**
 * The proleptic Gregorian calendar as Python's datetime module computes it:
 * a date's ordinal is its day number counted from 0001-01-01 (ordinal 1),
 * and weekday() is Monday = 0 ... Sunday = 6.
 */
module Dates {

  datatype Date = Date(year: int, month: int, day: int)

  /** The ordinal of 9999-12-31, the last date datetime can represent. */
  const MaxOrdinal := 3652059

  /** datetime's date.max. */
  const LastDate := Date(9999, 12, 31)

  predicate IsLeap(year: int) {
    year % 4 == 0 && (year % 100 != 0 || year % 400 == 0)
  }

  function DaysInMonth(year: int, month: int): (n: int)
    requires 1 <= month <= 12
    ensures 28 <= n <= 31
    ensures n == 29 <==> month == 2 && IsLeap(year)
  {
    if month == 2 then (if IsLeap(year) then 29 else 28)
    else if month == 4 || month == 6 || month == 9 || month == 11 then 30
    else 31
  }

  /**
   * Days in the months of `year` before `month`: datetime's _days_before_month,
   * a running sum of the month lengths.
   */
  function DaysBeforeMonth(year: int, month: int): (n: int)
    requires 1 <= month <= 12
    ensures 0 <= n && (n == 0 <==> month == 1)
  {
    if month == 1 then 0 else DaysBeforeMonth(year, month - 1) + DaysInMonth(year, month - 1)
  }

  /** Days in a year: 366 in a leap year, 365 otherwise. */
  function YearDays(year: int): (n: int)
    ensures n == 365 || n == 366
  {
    if IsLeap(year) then 366 else 365
  }

  /**
   * Days in the years from year 1 up to `year`, counted year by year (negative
   * before year 1, as the proleptic calendar runs on backwards).
   */
  function YearStart(year: int): (n: int)
    ensures year >= 1 ==> 0 <= n && (year > 1 ==> n >= 365)
    decreases if year >= 1 then year - 1 else 1 - year
  {
    if year == 1 then 0
    else if year > 1 then YearStart(year - 1) + YearDays(year - 1)
    else YearStart(year + 1) - YearDays(year)
  }

  /** Days in the years before `year` (datetime's _days_before_year; / floors here as in Python). */
  function DaysBeforeYear(year: int): int {
    var y := year - 1;
    y * 365 + y / 4 - y / 100 + y / 400
  }

  predicate Valid(d: Date) {
    1 <= d.month <= 12 && 1 <= d.day <= DaysInMonth(d.year, d.month)
  }

  /** Days-from-civil: datetime's toordinal(). */
  function Ordinal(d: Date): int
    requires 1 <= d.month <= 12
  {
    YearStart(d.year) + DaysBeforeMonth(d.year, d.month) + d.day
  }

  /** date + timedelta(days=1) */
  function NextDay(d: Date): (r: Date)
    requires Valid(d)
    ensures Valid(r)
  {
    if d.day < DaysInMonth(d.year, d.month) then d.(day := d.day + 1)
    else if d.month < 12 then Date(d.year, d.month + 1, 1)
    else Date(d.year + 1, 1, 1)
  }

  /** date - timedelta(days=1) */
  function PrevDay(d: Date): (r: Date)
    requires Valid(d)
    ensures Valid(r)
  {
    if d.day > 1 then d.(day := d.day - 1)
    else if d.month > 1 then Date(d.year, d.month - 1, DaysInMonth(d.year, d.month - 1))
    else Date(d.year - 1, 12, 31)
  }

  /** Civil-from-days: datetime's fromordinal(n), for n >= 1, by counting days from 0001-01-01. */
  function FromOrdinal(n: int): (d: Date)
    ensures Valid(d) && d.year >= 1
    decreases n
  {
    if n <= 1 then Date(1, 1, 1) else NextDay(FromOrdinal(n - 1))
  }

  /** d + timedelta(days=n), one day at a time, as a loop of `date += timedelta(days=1)` does. */
  function DaysAfter(d: Date, n: nat): (r: Date)
    requires Valid(d) && d.year >= 1
    ensures Valid(r) && r.year >= 1
  {
    if n == 0 then d else NextDay(DaysAfter(d, n - 1))
  }

  /** datetime's weekday(): Monday = 0 ... Sunday = 6. */
  function Weekday(d: Date): (w: int)
    requires 1 <= d.month <= 12
    ensures 0 <= w < 7
  {
    (Ordinal(d) + 6) % 7
  }

  /** The weekday numbered from Sunday = 0, as the grid's columns are. */
  function SundayFirstWeekday(d: Date): (w: int)
    requires 1 <= d.month <= 12
    ensures 0 <= w < 7
    ensures w == Ordinal(d) % 7
  {
    ShiftMod7(Ordinal(d));
    (Weekday(d) + 1) % 7
  }

  /** Moving Monday = 0 to Sunday = 0 undoes the +6 of weekday(). */
  lemma ShiftMod7(o: int)
    ensures ((o + 6) % 7 + 1) % 7 == o % 7
  {
    var q, r := o / 7, o % 7;
    assert o == 7 * q + r && 0 <= r < 7;
    if r == 0 {
      assert (o + 6) % 7 == 6;
    } else {
      assert (o + 6) % 7 == r - 1 by {
        assert o + 6 == 7 * (q + 1) + (r - 1);
      }
    }
  }

  /** One more year adds one more multiple of 4, 100 or 400 exactly when `a + 1` is one. */
  lemma Div4Step(a: int)
    ensures (a + 1) / 4 - a / 4 == (if (a + 1) % 4 == 0 then 1 else 0)
  {
    var q, r := a / 4, a % 4;
    assert a == 4 * q + r;
    if r == 3 {
      assert (a + 1) / 4 == q + 1;
    } else {
      assert (a + 1) / 4 == q;
    }
  }

  lemma Div100Step(a: int)
    ensures (a + 1) / 100 - a / 100 == (if (a + 1) % 100 == 0 then 1 else 0)
  {
    var q, r := a / 100, a % 100;
    assert a == 100 * q + r;
    if r == 99 {
      assert (a + 1) / 100 == q + 1;
    } else {
      assert (a + 1) / 100 == q;
    }
  }

  lemma Div400Step(a: int)
    ensures (a + 1) / 400 - a / 400 == (if (a + 1) % 400 == 0 then 1 else 0)
  {
    var q, r := a / 400, a % 400;
    assert a == 400 * q + r;
    if r == 399 {
      assert (a + 1) / 400 == q + 1;
    } else {
      assert (a + 1) / 400 == q;
    }
  }

  lemma YearLength(year: int)
    ensures DaysBeforeYear(year + 1) == DaysBeforeYear(year) + YearDays(year)
  {
    Div4Step(year - 1);
    Div100Step(year - 1);
    Div400Step(year - 1);
  }

  /** Counting year by year agrees with datetime's closed formula from year 1 on. */
  lemma {:induction false} YearStartFormula(year: int)
    requires year >= 1
    ensures YearStart(year) == DaysBeforeYear(year)
    decreases year
  {
    if year > 1 {
      YearStartFormula(year - 1);
      YearLength(year - 1);
    }
  }

  /** The ordinal is datetime's toordinal(): _days_before_year + _days_before_month + day. */
  lemma OrdinalFormula(d: Date)
    requires 1 <= d.month <= 12 && d.year >= 1
    ensures Ordinal(d) == DaysBeforeYear(d.year) + DaysBeforeMonth(d.year, d.month) + d.day
  {
    YearStartFormula(d.year);
  }

  /** A year starts no earlier than the end of any year before it. */
  lemma {:induction false} YearStartMonotone(a: int, b: int)
    requires a < b
    ensures YearStart(a) + YearDays(a) <= YearStart(b)
    decreases b - a
  {
    YearStartStep(b - 1);
    if a < b - 1 {
      YearStartMonotone(a, b - 1);
    }
  }

  /** Later months of a year start later, each at least its predecessor's length on. */
  lemma {:induction false} DaysBeforeMonthMonotone(year: int, m: int, n: int)
    requires 1 <= m < n <= 12
    ensures DaysBeforeMonth(year, m) + DaysInMonth(year, m) <= DaysBeforeMonth(year, n)
    decreases n - m
  {
    if m < n - 1 {
      DaysBeforeMonthMonotone(year, m, n - 1);
    }
  }

  /** Every month ends within its year. */
  lemma MonthWithinYear(year: int, month: int)
    requires 1 <= month <= 12
    ensures DaysBeforeMonth(year, month) + DaysInMonth(year, month) <= YearDays(year)
  {
    DaysBeforeDecember(year);
    if month < 12 {
      DaysBeforeMonthMonotone(year, month, 12);
    }
  }

  lemma NextDayOrdinal(d: Date)
    requires Valid(d)
    ensures Ordinal(NextDay(d)) == Ordinal(d) + 1
  {
    if d.day == DaysInMonth(d.year, d.month) && d.month == 12 {
      YearStartStep(d.year);
      DaysBeforeDecember(d.year);
    }
  }

  /** The first eleven months of a year are its length less December's 31 days. */
  lemma DaysBeforeDecember(year: int)
    ensures DaysBeforeMonth(year, 12) + 31 == YearDays(year)
  {
    var leap := if IsLeap(year) then 1 else 0;
    assert DaysBeforeMonth(year, 3) == 59 + leap;
    assert DaysBeforeMonth(year, 5) == 120 + leap;
    assert DaysBeforeMonth(year, 7) == 181 + leap;
    assert DaysBeforeMonth(year, 9) == 243 + leap;
    assert DaysBeforeMonth(year, 11) == 304 + leap;
  }

  /** Each year starts its own length after the one before. */
  lemma YearStartStep(year: int)
    ensures YearStart(year + 1) == YearStart(year) + YearDays(year)
  {
  }

  lemma PrevDayInverse(d: Date)
    requires Valid(d)
    ensures NextDay(PrevDay(d)) == d
    ensures Ordinal(PrevDay(d)) == Ordinal(d) - 1
  {
    var p := PrevDay(d);
    if d.day == 1 && d.month == 1 {
      assert p == Date(d.year - 1, 12, 31);
    } else if d.day == 1 {
      assert p == Date(d.year, d.month - 1, DaysInMonth(d.year, d.month - 1));
    }
    NextDayOrdinal(p);
  }

  lemma OrdinalPositive(d: Date)
    requires Valid(d) && d.year >= 1
    ensures Ordinal(d) >= 1
    ensures Ordinal(d) == 1 <==> d == Date(1, 1, 1)
  {
  }

  /** Civil-from-days inverts days-from-civil on the days it is defined for. */
  lemma {:induction false} FromOrdinalInverse(n: int)
    requires n >= 1
    ensures Ordinal(FromOrdinal(n)) == n
    decreases n
  {
    if n > 1 {
      FromOrdinalInverse(n - 1);
      NextDayOrdinal(FromOrdinal(n - 1));
    }
  }

  /** A valid date after 0001-01-01 has a predecessor from year 1 on, one ordinal lower. */
  lemma PrevDayFromYearOne(d: Date)
    requires Valid(d) && d.year >= 1 && d != Date(1, 1, 1)
    ensures Valid(PrevDay(d)) && PrevDay(d).year >= 1
    ensures NextDay(PrevDay(d)) == d
    ensures Ordinal(PrevDay(d)) == Ordinal(d) - 1 >= 1
  {
    PrevDayInverse(d);
    OrdinalPositive(PrevDay(d));
  }

  /** Counting days up to n + 1 is one more step than counting up to n. */
  lemma FromOrdinalStep(n: int, p: Date)
    requires n >= 1 && FromOrdinal(n) == p
    ensures Valid(p) && FromOrdinal(n + 1) == NextDay(p)
  {
  }

  /** 0001-01-01 is day 1 both ways. */
  lemma FirstDayOrdinal()
    ensures Ordinal(Date(1, 1, 1)) == 1 && FromOrdinal(1) == Date(1, 1, 1)
  {
  }

  /** If the day before d round-trips, so does d. */
  lemma OrdinalInverseStep(d: Date)
    requires Valid(d) && d.year >= 1 && d != Date(1, 1, 1)
    requires FromOrdinal(Ordinal(PrevDay(d))) == PrevDay(d)
    ensures FromOrdinal(Ordinal(d)) == d
  {
    var p := PrevDay(d);
    PrevDayFromYearOne(d);
    var k := Ordinal(p);
    FromOrdinalStep(k, p);
    assert Ordinal(d) == k + 1;
  }

  /** Days-from-civil inverts civil-from-days on every valid date from year 1 on. */
  lemma {:induction false} OrdinalInverse(d: Date)
    requires Valid(d) && d.year >= 1
    ensures FromOrdinal(Ordinal(d)) == d
    decreases Ordinal(d)
  {
    if d == Date(1, 1, 1) {
      FirstDayOrdinal();
    } else {
      PrevDayFromYearOne(d);
      OrdinalInverse(PrevDay(d));
      OrdinalInverseStep(d);
    }
  }

  /** Two valid dates with the same ordinal are the same date. */
  lemma OrdinalInjective(d: Date, e: Date)
    requires Valid(d) && d.year >= 1 && Valid(e) && e.year >= 1
    requires Ordinal(d) == Ordinal(e)
    ensures d == e
  {
    OrdinalInverse(d);
    OrdinalInverse(e);
  }

  /** MaxOrdinal is the ordinal of 9999-12-31. */
  lemma LastDayOrdinal()
    ensures Valid(LastDate) && Ordinal(LastDate) == MaxOrdinal
  {
    OrdinalFormula(LastDate);
    assert DaysBeforeYear(9999) == 3651694 by {
      assert 9998 / 4 == 2499 && 9998 / 100 == 99 && 9998 / 400 == 24;
    }
    assert DaysBeforeMonth(9999, 12) == 334;
  }

  /** The last representable date is the only valid date with the largest ordinal. */
  lemma IsLastDate(d: Date)
    requires Valid(d) && d.year >= 1
    ensures d == LastDate <==> Ordinal(d) == MaxOrdinal
  {
    LastDayOrdinal();
    if Ordinal(d) == MaxOrdinal {
      OrdinalInjective(d, LastDate);
    }
  }

  /** Each of n steps of one day adds one to the ordinal. */
  lemma {:induction false} DaysAfterAddsDays(d: Date, n: nat)
    requires Valid(d) && d.year >= 1
    ensures Ordinal(DaysAfter(d, n)) == Ordinal(d) + n
  {
    if n > 0 {
      DaysAfterAddsDays(d, n - 1);
      NextDayOrdinal(DaysAfter(d, n - 1));
    }
  }

  /** Stepping n days from a date lands on the date n ordinals further on. */
  lemma DaysAfterOrdinal(d: Date, n: nat)
    requires Valid(d) && d.year >= 1
    ensures Ordinal(DaysAfter(d, n)) == Ordinal(d) + n
    ensures DaysAfter(d, n) == FromOrdinal(Ordinal(d) + n)
  {
    DaysAfterAddsDays(d, n);
    OrdinalInverse(DaysAfter(d, n));
  }
}
