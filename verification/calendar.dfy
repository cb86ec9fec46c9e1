/**
 * The proleptic Gregorian calendar (RFC 3339, section 5.7 and appendix C) on day numbers. Day 0 is 0000-01-01; every
 * integer is a day, so years before 0 and after 9999 are calendar dates too.
 */
module Calendar {

  /** The day of 1 January 1970, and the day on which the year 10000 begins (Anchors). */
  const EPOCH_DAY: int := 719_528

  const LIMIT_DAY: int := 3_652_425

  datatype Date = Date(year: int, month: int, day: int)

  datatype Weekday = Monday | Tuesday | Wednesday | Thursday | Friday | Saturday | Sunday

  predicate IsLeap(year: int) {
    year % 4 == 0 && (year % 100 != 0 || year % 400 == 0)
  }

  function YearLength(year: int): nat {
    if IsLeap(year) then 366 else 365
  }

  function MonthLength(year: int, month: int): (n: nat)
    requires 1 <= month <= 12
    ensures 28 <= n <= 31
  {
    if month == 2 then (if IsLeap(year) then 29 else 28)
    else if month in {4, 6, 9, 11} then 30
    else 31
  }

  predicate ValidDate(d: Date) {
    1 <= d.month <= 12 && 1 <= d.day <= MonthLength(d.year, d.month)
  }

  function DaysBeforeYear(year: int): int
    decreases if year < 0 then -year else year
  {
    if year == 0 then 0
    else if year > 0 then DaysBeforeYear(year - 1) + YearLength(year - 1)
    else DaysBeforeYear(year + 1) - YearLength(year)
  }

  function DaysBeforeMonth(year: int, month: int): nat
    requires 1 <= month <= 13
  {
    if month == 1 then 0 else DaysBeforeMonth(year, month - 1) + MonthLength(year, month - 1)
  }

  function DayNumber(d: Date): int
    requires 1 <= d.month <= 12
  {
    DaysBeforeYear(d.year) + DaysBeforeMonth(d.year, d.month) + d.day - 1
  }

  // ---------- years ----------

  lemma NextYear(year: int)
    ensures DaysBeforeYear(year + 1) == DaysBeforeYear(year) + YearLength(year)
  {
  }

  lemma MonthsFillYear(year: int)
    ensures DaysBeforeMonth(year, 13) == YearLength(year)
  {
    assert DaysBeforeMonth(year, 2) == 31;
    assert DaysBeforeMonth(year, 3) == 31 + MonthLength(year, 2);
    assert DaysBeforeMonth(year, 5) == DaysBeforeMonth(year, 3) + 61;
    assert DaysBeforeMonth(year, 7) == DaysBeforeMonth(year, 5) + 61;
    assert DaysBeforeMonth(year, 9) == DaysBeforeMonth(year, 7) + 62;
    assert DaysBeforeMonth(year, 11) == DaysBeforeMonth(year, 9) + 61;
    assert DaysBeforeMonth(year, 13) == DaysBeforeMonth(year, 11) + 61;
  }

  lemma {:induction false} YearsAscend(a: int, b: int)
    requires a <= b
    ensures DaysBeforeYear(a) + (b - a) <= DaysBeforeYear(b)
    decreases b - a
  {
    if a < b {
      YearsAscend(a, b - 1);
      NextYear(b - 1);
    }
  }

  lemma CeilingStep(y: int, k: int, q: int)
    requires k > 0 && k * q <= y < k * q + k
    ensures (y + k) / k == q + 1
    ensures (y + k - 1) / k == if y == k * q then q else q + 1
  {
    QuotientIs(y + k, k, q + 1);
    QuotientIs(y + k - 1, k, if y == k * q then q else q + 1);
  }

  lemma QuotientIs(n: int, k: int, q: int)
    requires k > 0 && k * q <= n < k * q + k
    ensures n / k == q
  {
    var d := n / k;
    assert n == k * d + n % k;
    if d < q {
      ScaleUp(k, d + 1, q);
    } else if q < d {
      ScaleUp(k, q + 1, d);
    }
  }

  lemma ScaleUp(k: int, a: int, b: int)
    requires k > 0 && a <= b
    ensures k * a <= k * b
  {
  }

  /** Leap days before 1 January: multiples of 4, less centuries, plus every fourth century. */
  function LeapDaysBefore(year: int): int {
    (year + 3) / 4 - (year + 99) / 100 + (year + 399) / 400
  }

  lemma CeilingGap(y: int, k: int)
    requires k > 0
    ensures (y + k) / k - (y + k - 1) / k == if y % k == 0 then 1 else 0
  {
    var q := y / k;
    assert y == k * q + y % k;
    CeilingStep(y, k, q);
  }

  lemma CenturiesAreFourths(y: int)
    ensures y % 400 == 0 ==> y % 100 == 0
    ensures y % 100 == 0 ==> y % 4 == 0
  {
    if y % 400 == 0 {
      QuotientIs(y, 100, 4 * (y / 400));
    }
    if y % 100 == 0 {
      QuotientIs(y, 4, 25 * (y / 100));
    }
  }

  lemma LeapDaysStep(y: int)
    ensures LeapDaysBefore(y + 1) == LeapDaysBefore(y) + if IsLeap(y) then 1 else 0
  {
    CeilingGap(y, 4);
    CeilingGap(y, 100);
    CeilingGap(y, 400);
    CenturiesAreFourths(y);
  }

  lemma {:induction false} DaysBeforeYearClosedForm(year: int)
    requires year >= 0
    ensures DaysBeforeYear(year) == 365 * year + LeapDaysBefore(year)
  {
    if year > 0 {
      DaysBeforeYearClosedForm(year - 1);
      LeapDaysStep(year - 1);
    }
  }

  function YearFrom(day: int, guess: int): (year: int)
    ensures DaysBeforeYear(year) <= day < DaysBeforeYear(year + 1)
    decreases day < DaysBeforeYear(guess),
              if day < DaysBeforeYear(guess) then DaysBeforeYear(guess) - day else day - DaysBeforeYear(guess)
  {
    NextYear(guess);
    NextYear(guess - 1);
    if day < DaysBeforeYear(guess) then YearFrom(day, guess - 1)
    else if day >= DaysBeforeYear(guess + 1) then YearFrom(day, guess + 1)
    else guess
  }

  // ---------- months ----------

  function MonthFrom(year: int, offset: nat, month: int): (m: int)
    requires 1 <= month <= 12
    requires DaysBeforeMonth(year, month) <= offset < DaysBeforeMonth(year, 13)
    ensures 1 <= m <= 12
    ensures DaysBeforeMonth(year, m) <= offset < DaysBeforeMonth(year, m + 1)
    decreases 12 - month
  {
    if month == 12 || offset < DaysBeforeMonth(year, month + 1) then month else MonthFrom(year, offset, month + 1)
  }

  lemma {:induction false} MonthsAscend(year: int, a: int, b: int)
    requires 1 <= a <= b <= 13
    ensures DaysBeforeMonth(year, a) <= DaysBeforeMonth(year, b)
    decreases b - a
  {
    if a < b {
      MonthsAscend(year, a, b - 1);
    }
  }

  // ---------- dates and day numbers are in bijection ----------

  lemma DateExists(day: int)
    ensures exists d :: ValidDate(d) && DayNumber(d) == day
  {
    var year := YearFrom(day, 0);
    NextYear(year);
    MonthsFillYear(year);
    var offset := day - DaysBeforeYear(year);
    var month := MonthFrom(year, offset, 1);
    var d := Date(year, month, offset - DaysBeforeMonth(year, month) + 1);
    assert ValidDate(d) && DayNumber(d) == day;
  }

  /** The date of a day. */
  ghost function DateOf(day: int): (d: Date)
    ensures ValidDate(d) && DayNumber(d) == day
  {
    DateExists(day);
    var d :| ValidDate(d) && DayNumber(d) == day;
    d
  }

  lemma DayNumberBounds(d: Date)
    requires ValidDate(d)
    ensures DaysBeforeYear(d.year) <= DayNumber(d) < DaysBeforeYear(d.year + 1)
  {
    MonthsAscend(d.year, d.month + 1, 13);
    MonthsFillYear(d.year);
    NextYear(d.year);
  }

  lemma LaterMonthLaterDay(d: Date, e: Date)
    requires ValidDate(d) && ValidDate(e)
    requires d.year < e.year || (d.year == e.year && d.month < e.month)
    ensures DayNumber(d) < DayNumber(e)
  {
    if d.year < e.year {
      DayNumberBounds(d);
      DayNumberBounds(e);
      YearsAscend(d.year + 1, e.year);
    } else {
      MonthsAscend(d.year, d.month + 1, e.month);
    }
  }

  lemma DayNumberInjective(d: Date, e: Date)
    requires ValidDate(d) && ValidDate(e) && DayNumber(d) == DayNumber(e)
    ensures d == e
  {
    if d.year < e.year || (d.year == e.year && d.month < e.month) {
      LaterMonthLaterDay(d, e);
    } else if e.year < d.year || (d.year == e.year && e.month < d.month) {
      LaterMonthLaterDay(e, d);
    }
  }

  lemma DateOfDayNumber(d: Date)
    requires ValidDate(d)
    ensures DateOf(DayNumber(d)) == d
  {
    DayNumberInjective(d, DateOf(DayNumber(d)));
  }

  // ---------- the first of the month ----------

  function FirstOfMonth(d: Date): Date {
    Date(d.year, d.month, 1)
  }

  function FirstOfNextMonth(d: Date): Date {
    if d.month == 12 then Date(d.year + 1, 1, 1) else Date(d.year, d.month + 1, 1)
  }

  lemma MonthAhead(d: Date)
    requires ValidDate(d)
    ensures ValidDate(FirstOfNextMonth(d))
    ensures DayNumber(FirstOfNextMonth(d)) == DayNumber(FirstOfMonth(d)) + MonthLength(d.year, d.month)
    ensures MonthLength(d.year, d.month)
         == [31, if d.year % 4 == 0 && (d.year % 100 != 0 || d.year % 400 == 0) then 29 else 28, 31, 30, 31, 30,
             31, 31, 30, 31, 30, 31][d.month - 1]
  {
    if d.month == 12 {
      MonthsFillYear(d.year);
      NextYear(d.year);
    }
  }

  // ---------- weekdays ----------

  /** Monday is 0; 0000-01-01 was a Saturday. */
  function WeekdayIndex(day: int): (i: nat)
    ensures i < 7
  {
    (day + 5) % 7
  }

  function WeekdayOf(day: int): Weekday {
    match WeekdayIndex(day)
    case 0 => Monday
    case 1 => Tuesday
    case 2 => Wednesday
    case 3 => Thursday
    case 4 => Friday
    case 5 => Saturday
    case _ => Sunday
  }

  /** The Unix epoch is day 719528, a Thursday; the year 10000 begins on day 3652425. */
  lemma Anchors(year: int)
    ensures year == 1970 ==> DayNumber(Date(year, 1, 1)) == EPOCH_DAY && WeekdayOf(EPOCH_DAY) == Thursday
    ensures year == 10_000 ==> DayNumber(Date(year, 1, 1)) == LIMIT_DAY
  {
    if year == 1970 || year == 10_000 {
      DaysBeforeYearClosedForm(year);
    }
  }
}
