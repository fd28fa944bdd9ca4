/** A small proleptic-Gregorian calendar: the part of .NET's `DateOnly` and
    `DayOfWeek` that the holiday schedule generator relies on.  Day numbers
    count days since 0001-01-01, which is a Monday, as `DateOnly.DayNumber`
    does. */
module Calendar {
  import opened Wrappers

  /** A naive calendar date; `ValidDate` says when it names a real day. */
  datatype Date = Date(year: int, month: int, day: int)

  /** .NET's `System.DayOfWeek`, whose underlying values run Sunday = 0 to
      Saturday = 6. */
  datatype DayOfWeek = Sunday | Monday | Tuesday | Wednesday | Thursday | Friday | Saturday
  {
    /** The enum's underlying value. */
    function Index(): (i: nat)
      ensures i < 7
    {
      match this
      case Sunday => 0
      case Monday => 1
      case Tuesday => 2
      case Wednesday => 3
      case Thursday => 4
      case Friday => 5
      case Saturday => 6
    }

    /** The enum member's name, as string interpolation renders it. */
    function Name(): string
    {
      match this
      case Sunday => "Sunday"
      case Monday => "Monday"
      case Tuesday => "Tuesday"
      case Wednesday => "Wednesday"
      case Thursday => "Thursday"
      case Friday => "Friday"
      case Saturday => "Saturday"
    }
  }

  /** Converts an underlying value back to the enum member; the inverse of `Index`. */
  function WeekdayFromIndex(i: int): (w: DayOfWeek)
    requires 0 <= i < 7
    ensures w.Index() == i
  {
    if i == 0 then Sunday
    else if i == 1 then Monday
    else if i == 2 then Tuesday
    else if i == 3 then Wednesday
    else if i == 4 then Thursday
    else if i == 5 then Friday
    else Saturday
  }

  lemma IndexDeterminesWeekday(v: DayOfWeek, w: DayOfWeek)
    ensures v.Index() == w.Index() <==> v == w
  {
  }

  /** The Gregorian leap-year rule: every fourth year, except centuries that
      are not divisible by 400. */
  predicate IsLeapYear(year: int)
  {
    year % 4 == 0 && (year % 100 != 0 || year % 400 == 0)
  }

  function DaysInYear(year: int): int
  {
    if IsLeapYear(year) then 366 else 365
  }

  function DaysInMonth(year: int, month: int): (n: int)
    requires 1 <= month <= 12
    ensures 28 <= n <= 31
  {
    if month == 2 then (if IsLeapYear(year) then 29 else 28)
    else if month == 4 || month == 6 || month == 9 || month == 11 then 30
    else 31
  }

  /** Days of `year` that come before the first of `month`; `month == 13`
      gives the length of the whole year. */
  function DaysBeforeMonth(year: int, month: int): (n: nat)
    requires 1 <= month <= 13
  {
    var common :=
      match month
      case 1 => 0
      case 2 => 31
      case 3 => 59
      case 4 => 90
      case 5 => 120
      case 6 => 151
      case 7 => 181
      case 8 => 212
      case 9 => 243
      case 10 => 273
      case 11 => 304
      case 12 => 334
      case _ => 365;
    if month > 2 && IsLeapYear(year) then common + 1 else common
  }

  /** The cumulative month table agrees with the month lengths, and a whole
      year has `DaysInYear` days. */
  lemma DaysBeforeMonthStep(year: int, month: int)
    requires 1 <= month <= 12
    ensures DaysBeforeMonth(year, month + 1) == DaysBeforeMonth(year, month) + DaysInMonth(year, month)
    ensures DaysBeforeMonth(year, 13) == DaysInYear(year)
  {
  }

  /** Days from 0001-01-01 to the first of January of `year`. */
  function DaysBeforeYear(year: int): (n: int)
    requires year >= 1
    ensures n >= 0
  {
    var y := year - 1;
    365 * y + y / 4 - y / 100 + y / 400
  }

  /** The closed form of `DaysBeforeYear` advances by the length of each year. */
  lemma DaysBeforeYearStep(year: int)
    requires year >= 1
    ensures DaysBeforeYear(year + 1) == DaysBeforeYear(year) + DaysInYear(year)
  {
    DivStep4(year - 1);
    DivStep100(year - 1);
    DivStep400(year - 1);
    CenturyFacts(year);
  }

  lemma DivStep4(y: int)
    requires y >= 0
    ensures (y + 1) / 4 == y / 4 + (if (y + 1) % 4 == 0 then 1 else 0)
  {
  }

  lemma DivStep100(y: int)
    requires y >= 0
    ensures (y + 1) / 100 == y / 100 + (if (y + 1) % 100 == 0 then 1 else 0)
  {
  }

  lemma DivStep400(y: int)
    requires y >= 0
    ensures (y + 1) / 400 == y / 400 + (if (y + 1) % 400 == 0 then 1 else 0)
  {
  }

  lemma CenturyFacts(year: int)
    ensures year % 100 == 0 ==> year % 4 == 0
    ensures year % 400 == 0 ==> year % 100 == 0
  {
    if year % 100 == 0 {
      assert year == 4 * (25 * (year / 100));
    }
    if year % 400 == 0 {
      assert year == 100 * (4 * (year / 400));
    }
  }

  /** `DaysBeforeYear` is monotonic: a whole year fits between two year starts. */
  lemma {:induction false} DaysBeforeYearMonotonic(y1: int, y2: int)
    requires 1 <= y1 < y2
    ensures DaysBeforeYear(y1) + DaysInYear(y1) <= DaysBeforeYear(y2)
    decreases y2 - y1
  {
    DaysBeforeYearStep(y1);
    if y1 + 1 < y2 {
      DaysBeforeYearMonotonic(y1 + 1, y2);
    }
  }

  /** A date that exists in the proleptic Gregorian calendar (from year 1 on). */
  predicate ValidDate(d: Date)
  {
    d.year >= 1 && 1 <= d.month <= 12 && 1 <= d.day <= DaysInMonth(d.year, d.month)
  }

  const MinimumDateYear := 1
  const MaximumDateYear := 9999

  /** A date that `DateOnly` can represent: 0001-01-01 to 9999-12-31. */
  predicate InDateOnlyRange(d: Date)
  {
    ValidDate(d) && MinimumDateYear <= d.year <= MaximumDateYear
  }

  /** Days since 0001-01-01 (`DateOnly.DayNumber`). */
  function DayNumber(d: Date): (n: int)
    requires ValidDate(d)
    ensures n >= 0
  {
    DaysBeforeYear(d.year) + DaysBeforeMonth(d.year, d.month) + d.day - 1
  }

  /** A valid date's day number lies within its year. */
  lemma DayNumberWithinYear(d: Date)
    requires ValidDate(d)
    ensures DaysBeforeYear(d.year) <= DayNumber(d) < DaysBeforeYear(d.year) + DaysInYear(d.year)
  {
    DaysBeforeMonthStep(d.year, d.month);
    if d.month < 12 {
      MonthsAreOrdered(d.year, d.month + 1, 13);
    }
  }

  lemma MonthsAreOrdered(year: int, m1: int, m2: int)
    requires 1 <= m1 <= m2 <= 13
    ensures DaysBeforeMonth(year, m1) <= DaysBeforeMonth(year, m2)
  {
  }

  /** The underlying value of the day of the week: 0001-01-01 (day 0) is a
      Monday (1). */
  function WeekdayIndex(d: Date): (i: int)
    requires ValidDate(d)
    ensures 0 <= i < 7
  {
    (DayNumber(d) + 1) % 7
  }

  /** `DateOnly.DayOfWeek`. */
  function DayOfWeekOf(d: Date): (w: DayOfWeek)
    requires ValidDate(d)
    ensures w.Index() == WeekdayIndex(d)
  {
    WeekdayFromIndex(WeekdayIndex(d))
  }

  /** Within a month the weekday advances by one for every day. */
  lemma WeekdayInMonth(year: int, month: int, day: int)
    requires year >= 1 && 1 <= month <= 12 && 1 <= day <= DaysInMonth(year, month)
    ensures WeekdayIndex(Date(year, month, day)) == (WeekdayIndex(Date(year, month, 1)) + day - 1) % 7
  {
    var n1 := DayNumber(Date(year, month, 1));
    assert DayNumber(Date(year, month, day)) == n1 + day - 1;
    ModAddLeft(n1 + 1, day - 1);
  }

  lemma ModAddLeft(a: int, b: int)
    ensures (a + b) % 7 == (a % 7 + b) % 7
  {
  }

  /** `date.AddDays(1)`. */
  function NextDay(d: Date): (r: Date)
    requires ValidDate(d)
    ensures ValidDate(r)
  {
    if d.day < DaysInMonth(d.year, d.month) then Date(d.year, d.month, d.day + 1)
    else if d.month < 12 then Date(d.year, d.month + 1, 1)
    else Date(d.year + 1, 1, 1)
  }

  /** The day after has the next day number and the next weekday. */
  lemma NextDayAdvances(d: Date)
    requires ValidDate(d)
    ensures DayNumber(NextDay(d)) == DayNumber(d) + 1
    ensures WeekdayIndex(NextDay(d)) == (WeekdayIndex(d) + 1) % 7
  {
    NextDayNumber(d);
    ModAddLeft(DayNumber(d) + 1, 1);
  }

  lemma NextDayNumber(d: Date)
    requires ValidDate(d)
    ensures DayNumber(NextDay(d)) == DayNumber(d) + 1
  {
    if d.day == DaysInMonth(d.year, d.month) {
      DaysBeforeMonthStep(d.year, d.month);
      if d.month == 12 {
        DaysBeforeYearStep(d.year);
      }
    }
  }

  /** `date.AddDays(-1)`; 0001-01-01 has no predecessor. */
  function PreviousDay(d: Date): (r: Date)
    requires ValidDate(d) && d != Date(1, 1, 1)
    ensures ValidDate(r)
  {
    if d.day > 1 then Date(d.year, d.month, d.day - 1)
    else if d.month > 1 then Date(d.year, d.month - 1, DaysInMonth(d.year, d.month - 1))
    else Date(d.year - 1, 12, 31)
  }

  /** The day before has the previous day number and the previous weekday. */
  lemma PreviousDayRetreats(d: Date)
    requires ValidDate(d) && d != Date(1, 1, 1)
    ensures DayNumber(PreviousDay(d)) == DayNumber(d) - 1
    ensures WeekdayIndex(PreviousDay(d)) == (WeekdayIndex(d) + 6) % 7
  {
    var p := PreviousDay(d);
    NextAndPreviousAreInverse(d);
    NextDayAdvances(p);
    WeekdayBack(WeekdayIndex(p));
  }

  lemma WeekdayBack(x: int)
    requires 0 <= x < 7
    ensures ((x + 1) % 7 + 6) % 7 == x
  {
  }

  /** Stepping forward and back are inverse to each other. */
  lemma {:induction false} NextAndPreviousAreInverse(d: Date)
    requires ValidDate(d)
    ensures NextDay(d) != Date(1, 1, 1) && PreviousDay(NextDay(d)) == d
    ensures d != Date(1, 1, 1) ==> NextDay(PreviousDay(d)) == d
  {
    if d.month == 12 && d.day == DaysInMonth(d.year, 12) {
      assert NextDay(d) == Date(d.year + 1, 1, 1);
    }
  }

  /** The ordering `DateOnly` compares by (its day number), stated on the
      calendar fields. */
  predicate Before(a: Date, b: Date)
  {
    a.year < b.year || (a.year == b.year && (a.month < b.month || (a.month == b.month && a.day < b.day)))
  }

  predicate OnOrBefore(a: Date, b: Date)
  {
    a == b || Before(a, b)
  }

  /** Comparing the fields is comparing the day numbers. */
  lemma BeforeIsDayNumberOrder(a: Date, b: Date)
    requires ValidDate(a) && ValidDate(b)
    ensures Before(a, b) <==> DayNumber(a) < DayNumber(b)
  {
    DayNumberWithinYear(a);
    DayNumberWithinYear(b);
    if a.year < b.year {
      DaysBeforeYearMonotonic(a.year, b.year);
    } else if b.year < a.year {
      DaysBeforeYearMonotonic(b.year, a.year);
    } else if a.month < b.month {
      DaysBeforeMonthStep(a.year, a.month);
      MonthsAreOrdered(a.year, a.month + 1, b.month);
    } else if b.month < a.month {
      DaysBeforeMonthStep(b.year, b.month);
      MonthsAreOrdered(b.year, b.month + 1, a.month);
    }
  }

  /** Distinct valid dates have distinct day numbers. */
  lemma DayNumberInjective(a: Date, b: Date)
    requires ValidDate(a) && ValidDate(b) && DayNumber(a) == DayNumber(b)
    ensures a == b
  {
    BeforeIsDayNumberOrder(a, b);
    BeforeIsDayNumberOrder(b, a);
  }

  /** The last day of a month (the corrected form of line 101 of the
      generator, which computes it as `first.AddMonths(1).AddDays(-1)`). */
  function LastDayOfMonth(year: int, month: int): (r: Date)
    requires year >= 1 && 1 <= month <= 12
    ensures ValidDate(r) && r.year == year && r.month == month
    ensures NextDay(r).day == 1 && NextDay(r).month != month
  {
    Date(year, month, DaysInMonth(year, month))
  }

  /** `date.AddMonths(1)`: the same day of the next month, clamped to that
      month's length; `None` where `DateOnly` throws because the result would
      pass 9999-12-31. */
  function AddOneMonth(d: Date): (r: Option<Date>)
    requires InDateOnlyRange(d)
    ensures r.Some? <==> d.year < MaximumDateYear || d.month < 12
    ensures r.Some? ==> InDateOnlyRange(r.value)
  {
    var (y, m) := if d.month == 12 then (d.year + 1, 1) else (d.year, d.month + 1);
    if y > MaximumDateYear then None
    else
      var dim := DaysInMonth(y, m);
      Some(Date(y, m, if d.day <= dim then d.day else dim))
  }
}
