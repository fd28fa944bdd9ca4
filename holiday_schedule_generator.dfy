/** `HolidayScheduleGenerator`: resolves each holiday rule to a date in a
    given year and returns the (date, rule) pairs in ascending date order, the
    first rule to claim a date keeping it.  The class has no fields, so the
    model is a module of functions and methods. */
module HolidayScheduleGenerator {
  import opened Wrappers
  import opened Calendar
  import opened NumberUtility
  import opened HolidayDefinitions

  const MinimumYear := 1800
  const MaximumYear := 9999

  predicate YearInRange(year: int)
  {
    MinimumYear <= year <= MaximumYear
  }

  /** The exceptions `GenerateForYear` lets escape, with the context their
      messages are built from. */
  datatype GeneratorError =
    | YearOutOfRange(year: int)
    | NullHolidays
    | InvalidDate(name: string, year: int, month: int, day: int)
    | OccurrenceNotFound(name: string, occurrence: int, weekday: DayOfWeek, month: int, year: int)
    | MonthOutOfRange(month: int)

  /** A generated holiday: the date and the rule that claimed it. */
  type Entry = (Date, HolidayDefinition)

  // ---------------------------------------------------------------------
  // Validation
  // ---------------------------------------------------------------------

  /** `ValidateInputs`: `None` when the call may proceed.  The year is
      checked before the rule list, so an out-of-range year wins even over a
      null list. */
  function ValidateInputs(year: int, holidays: Option<seq<HolidayDefinition>>): (e: Option<GeneratorError>)
    ensures !YearInRange(year) ==> e == Some(YearOutOfRange(year))
    ensures YearInRange(year) ==> (e.None? <==> holidays.Some?)
    ensures YearInRange(year) && holidays.None? ==> e == Some(NullHolidays)
  {
    if year < MinimumYear || year > MaximumYear then Some(YearOutOfRange(year))
    else if holidays.None? then Some(NullHolidays)
    else None
  }

  // ---------------------------------------------------------------------
  // Fixed-date rules
  // ---------------------------------------------------------------------

  /** `AdjustForWeekend`: a Saturday moves back to Friday, a Sunday forward
      to Monday, any other day stays.  Within `DateOnly`'s range neither move
      can leave it: 0001-01-01 is a Monday and 9999-12-31 a Friday. */
  function AdjustForWeekend(date: Date): (r: Date)
    requires InDateOnlyRange(date)
    ensures InDateOnlyRange(r)
    ensures DayOfWeekOf(r) != Saturday && DayOfWeekOf(r) != Sunday
    ensures DayOfWeekOf(date) == Saturday ==> DayNumber(r) == DayNumber(date) - 1 && DayOfWeekOf(r) == Friday
    ensures DayOfWeekOf(date) == Sunday ==> DayNumber(r) == DayNumber(date) + 1 && DayOfWeekOf(r) == Monday
    ensures DayOfWeekOf(date) != Saturday && DayOfWeekOf(date) != Sunday ==> r == date
  {
    match DayOfWeekOf(date)
    case Saturday =>
      SaturdayStepsBack(date);
      PreviousDay(date)
    case Sunday =>
      SundayStepsForward(date);
      NextDay(date)
    case _ => date
  }

  /** 0001-01-01 is a Monday, so a Saturday has a day before it, a Friday. */
  lemma SaturdayStepsBack(date: Date)
    requires InDateOnlyRange(date) && DayOfWeekOf(date) == Saturday
    ensures date != Date(1, 1, 1)
    ensures InDateOnlyRange(PreviousDay(date))
    ensures DayNumber(PreviousDay(date)) == DayNumber(date) - 1 && DayOfWeekOf(PreviousDay(date)) == Friday
  {
    assert WeekdayIndex(Date(1, 1, 1)) == 1;
    PreviousDayRetreats(date);
    IndexDeterminesWeekday(DayOfWeekOf(PreviousDay(date)), Friday);
  }

  /** 9999-12-31 is a Friday, so a Sunday has a day after it, a Monday. */
  lemma SundayStepsForward(date: Date)
    requires InDateOnlyRange(date) && DayOfWeekOf(date) == Sunday
    ensures date != Date(MaximumDateYear, 12, 31)
    ensures InDateOnlyRange(NextDay(date))
    ensures DayNumber(NextDay(date)) == DayNumber(date) + 1 && DayOfWeekOf(NextDay(date)) == Monday
  {
    assert WeekdayIndex(Date(MaximumDateYear, 12, 31)) == 5;
    NextDayAdvances(date);
    IndexDeterminesWeekday(DayOfWeekOf(NextDay(date)), Monday);
  }

  /** `GenerateFixedDateHoliday`: the rule's day in `year`, moved off the
      weekend; a day that does not exist is an `InvalidDate` error naming the
      holiday. */
  function GenerateFixedDateHoliday(year: int, holiday: HolidayDefinition): (r: Result<Date, GeneratorError>)
    requires YearInRange(year) && holiday.FixedDate?
    ensures r.Success? <==> ValidDate(Date(year, holiday.month, holiday.day))
    ensures r.Failure? ==> r.error == InvalidDate(holiday.name, year, holiday.month, holiday.day)
    ensures r.Success? ==>
      && InDateOnlyRange(r.value)
      && DayOfWeekOf(r.value) != Saturday && DayOfWeekOf(r.value) != Sunday
      && var requested := DayNumber(Date(year, holiday.month, holiday.day));
         requested - 1 <= DayNumber(r.value) <= requested + 1
    ensures r.Success? ==> var requested := Date(year, holiday.month, holiday.day);
      && (DayOfWeekOf(requested) == Saturday ==> r.value == PreviousDay(requested))
      && (DayOfWeekOf(requested) == Sunday ==> r.value == NextDay(requested))
      && (DayOfWeekOf(requested) != Saturday && DayOfWeekOf(requested) != Sunday ==> r.value == requested)
  {
    var date := Date(year, holiday.month, holiday.day);
    if InDateOnlyRange(date) then Success(AdjustForWeekend(date))
    else Failure(InvalidDate(holiday.name, year, holiday.month, holiday.day))
  }

  // ---------------------------------------------------------------------
  // Relative-weekday rules: reference definitions
  // ---------------------------------------------------------------------

  /** The number of days among the first `day` days of the month that fall on
      `weekday`. */
  function Occurrences(year: int, month: int, weekday: DayOfWeek, day: int): (n: nat)
    requires YearInRange(year) && 1 <= month <= 12 && 0 <= day <= DaysInMonth(year, month)
    ensures n <= day
  {
    if day == 0 then 0
    else Occurrences(year, month, weekday, day - 1) + (if DayOfWeekOf(Date(year, month, day)) == weekday then 1 else 0)
  }

  /** The day of the month of the first `weekday`. */
  function FirstOccurrenceDay(year: int, month: int, weekday: DayOfWeek): (d: int)
    requires YearInRange(year) && 1 <= month <= 12
    ensures 1 <= d <= 7
  {
    1 + (weekday.Index() - WeekdayIndex(Date(year, month, 1))) % 7
  }

  /** The day of the month of the `n`th `weekday`, counting on from the first
      one by whole weeks; it may lie past the month's end. */
  function NthOccurrenceDay(year: int, month: int, weekday: DayOfWeek, n: int): int
    requires YearInRange(year) && 1 <= month <= 12
  {
    FirstOccurrenceDay(year, month, weekday) + 7 * (n - 1)
  }

  /** The day of the month of the last `weekday`, counting back from the
      month's last day. */
  function LastOccurrenceDay(year: int, month: int, weekday: DayOfWeek): int
    requires YearInRange(year) && 1 <= month <= 12
  {
    var last := LastDayOfMonth(year, month);
    last.day - (WeekdayIndex(last) - weekday.Index()) % 7
  }

  /** What `GenerateRelativeWeekdayHoliday` returns, by the closed forms above. */
  function RelativeWeekdayDate(year: int, holiday: HolidayDefinition): (r: Result<Date, GeneratorError>)
    requires YearInRange(year) && holiday.RelativeWeekday?
  {
    var month, n, weekday := holiday.month, holiday.day, holiday.weekday;
    if !(1 <= month <= 12) then Failure(MonthOutOfRange(month))
    else if n == -1 then Success(Date(year, month, LastOccurrenceDay(year, month, weekday)))
    else if 1 <= n && NthOccurrenceDay(year, month, weekday, n) <= DaysInMonth(year, month) then
      Success(Date(year, month, NthOccurrenceDay(year, month, weekday, n)))
    else Failure(OccurrenceNotFound(holiday.name, n, weekday, month, year))
  }

  /** The `n`th `weekday` of the month, when the month has one. */
  function NthOccurrenceDate(year: int, month: int, weekday: DayOfWeek, n: int): Option<Date>
    requires YearInRange(year) && 1 <= month <= 12
  {
    if 1 <= n && NthOccurrenceDay(year, month, weekday, n) <= DaysInMonth(year, month)
    then Some(Date(year, month, NthOccurrenceDay(year, month, weekday, n)))
    else None
  }

  /** A day of the month falls on `weekday` exactly when it lies a whole
      number of weeks from the first such day. */
  lemma WeekdayMatches(year: int, month: int, weekday: DayOfWeek, day: int)
    requires YearInRange(year) && 1 <= month <= 12 && 1 <= day <= DaysInMonth(year, month)
    ensures DayOfWeekOf(Date(year, month, day)) == weekday <==> (day - FirstOccurrenceDay(year, month, weekday)) % 7 == 0
  {
    WeekdayInMonth(year, month, day);
    WeekStepArithmetic(WeekdayIndex(Date(year, month, 1)), weekday.Index(), day);
    IndexDeterminesWeekday(DayOfWeekOf(Date(year, month, day)), weekday);
  }

  /** On underlying values: day `day` of a month starting on weekday `f` is
      on weekday `w` exactly when it is a whole number of weeks after the
      first day on `w`. */
  lemma WeekStepArithmetic(f: int, w: int, day: int)
    requires 0 <= f < 7 && 0 <= w < 7
    ensures (f + day - 1) % 7 == w <==> (day - (1 + (w - f) % 7)) % 7 == 0
  {
    var b, q := (w - f) % 7, (w - f) / 7;
    assert w - f == 7 * q + b;
    var r, p := (f + day - 1) % 7, (f + day - 1) / 7;
    assert f + day - 1 == 7 * p + r;
    assert day - (1 + b) == 7 * (p + q) + (r - w);
    WholeWeeksPlus(p + q, r - w);
  }

  lemma WholeWeeksPlus(k: int, d: int)
    requires -7 < d < 7
    ensures (7 * k + d) % 7 == 0 <==> d == 0
  {
    var m, t := (7 * k + d) % 7, (7 * k + d) / 7;
    assert 7 * k + d == 7 * t + m;
    assert d - m == 7 * (t - k);
  }

  /** Counting the matching days: none before the first, then one per week. */
  lemma {:induction false} OccurrencesClosedForm(year: int, month: int, weekday: DayOfWeek, day: int)
    requires YearInRange(year) && 1 <= month <= 12 && 0 <= day <= DaysInMonth(year, month)
    ensures Occurrences(year, month, weekday, day) == WeeksSince(FirstOccurrenceDay(year, month, weekday), day)
  {
    if day > 0 {
      OccurrencesClosedForm(year, month, weekday, day - 1);
      OccurrencesStep(year, month, weekday, day);
      WeekdayMatches(year, month, weekday, day);
      WeeksSinceStep(FirstOccurrenceDay(year, month, weekday), day);
    }
  }

  /** How many of the days `1..day` lie a whole number of weeks on from
      `first`: none before `first`, then one per week. */
  function WeeksSince(first: int, day: int): int
  {
    if day < first then 0 else (day - first) / 7 + 1
  }

  /** Moving on one day adds one exactly on a whole number of weeks. */
  lemma WeeksSinceStep(first: int, day: int)
    requires day - first > -7
    ensures WeeksSince(first, day) == WeeksSince(first, day - 1) + (if (day - first) % 7 == 0 then 1 else 0)
  {
    var x := day - first;
    if x < 0 {
      WholeWeeksPlus(0, x);
    } else if x > 0 {
      var q, r := (x - 1) / 7, (x - 1) % 7;
      assert x - 1 == 7 * q + r;
      if r == 6 {
        assert x == 7 * (q + 1);
      } else {
        assert x == 7 * q + (r + 1);
      }
    }
  }

  /** Every month has four or five of each day of the week. */
  lemma FourOrFiveOccurrences(year: int, month: int, weekday: DayOfWeek)
    requires YearInRange(year) && 1 <= month <= 12
    ensures 4 <= Occurrences(year, month, weekday, DaysInMonth(year, month)) <= 5
  {
    OccurrencesClosedForm(year, month, weekday, DaysInMonth(year, month));
  }

  /** The `n`th occurrence, when the month has one, is the unique day on
      `weekday` with exactly `n` such days on or before it; the month has one
      exactly when it has at least `n` such days. */
  lemma NthOccurrenceIsCounted(year: int, month: int, weekday: DayOfWeek, n: int)
    requires YearInRange(year) && 1 <= month <= 12 && n >= 1
    ensures var nth, dim := NthOccurrenceDay(year, month, weekday, n), DaysInMonth(year, month);
      && (nth <= dim <==> n <= Occurrences(year, month, weekday, dim))
      && (nth <= dim ==>
            DayOfWeekOf(Date(year, month, nth)) == weekday && Occurrences(year, month, weekday, nth) == n)
      && forall day ::
           (1 <= day <= dim && DayOfWeekOf(Date(year, month, day)) == weekday
            && Occurrences(year, month, weekday, day) == n) ==> day == nth
  {
    NthOccurrenceInMonth(year, month, weekday, n);
    NthOccurrenceMatches(year, month, weekday, n);
    NthOccurrenceUnique(year, month, weekday, n);
  }

  lemma NthOccurrenceInMonth(year: int, month: int, weekday: DayOfWeek, n: int)
    requires YearInRange(year) && 1 <= month <= 12 && n >= 1
    ensures NthOccurrenceDay(year, month, weekday, n) <= DaysInMonth(year, month)
      <==> n <= Occurrences(year, month, weekday, DaysInMonth(year, month))
  {
    NthWeekArithmetic(FirstOccurrenceDay(year, month, weekday), DaysInMonth(year, month), n);
    OccurrencesClosedForm(year, month, weekday, DaysInMonth(year, month));
  }

  lemma NthOccurrenceMatches(year: int, month: int, weekday: DayOfWeek, n: int)
    requires YearInRange(year) && 1 <= month <= 12 && n >= 1
    ensures var nth := NthOccurrenceDay(year, month, weekday, n);
      nth <= DaysInMonth(year, month) ==>
        DayOfWeekOf(Date(year, month, nth)) == weekday && Occurrences(year, month, weekday, nth) == n
  {
    var nth := NthOccurrenceDay(year, month, weekday, n);
    if nth <= DaysInMonth(year, month) {
      NthWeekArithmetic(FirstOccurrenceDay(year, month, weekday), DaysInMonth(year, month), n);
      OccurrencesClosedForm(year, month, weekday, nth);
      WeekdayMatches(year, month, weekday, nth);
    }
  }

  lemma NthOccurrenceUnique(year: int, month: int, weekday: DayOfWeek, n: int)
    requires YearInRange(year) && 1 <= month <= 12 && n >= 1
    ensures forall day ::
      (1 <= day <= DaysInMonth(year, month) && DayOfWeekOf(Date(year, month, day)) == weekday
       && Occurrences(year, month, weekday, day) == n) ==> day == NthOccurrenceDay(year, month, weekday, n)
  {
    var first := FirstOccurrenceDay(year, month, weekday);
    NthWeekArithmetic(first, DaysInMonth(year, month), n);
    forall day | 1 <= day <= DaysInMonth(year, month) && DayOfWeekOf(Date(year, month, day)) == weekday
                 && Occurrences(year, month, weekday, day) == n
      ensures day == NthOccurrenceDay(year, month, weekday, n)
    {
      OccurrencesClosedForm(year, month, weekday, day);
      WeekdayMatches(year, month, weekday, day);
    }
  }

  /** The week arithmetic behind `NthOccurrenceIsCounted`: the day `n - 1`
      weeks after `first` is the one where the count reaches `n`, and it lies
      within `dim` days exactly when the count there reaches `n`. */
  lemma NthWeekArithmetic(first: int, dim: int, n: int)
    requires 1 <= first <= 7 <= dim && n >= 1
    ensures var nth := first + 7 * (n - 1);
      && (nth <= dim <==> n <= WeeksSince(first, dim))
      && WeeksSince(first, nth) == n && (nth - first) % 7 == 0
      && forall day :: day >= first && (day - first) % 7 == 0 && WeeksSince(first, day) == n ==> day == nth
  {
    var nth := first + 7 * (n - 1);
    var q, r := (dim - first) / 7, (dim - first) % 7;
    assert dim - first == 7 * q + r;
    if nth <= dim {
      assert 7 * (n - 1) <= 7 * q + r;
    } else {
      assert 7 * (n - 1) > 7 * q + r;
    }
    forall day | day >= first && (day - first) % 7 == 0 && WeeksSince(first, day) == n
      ensures day == nth
    {
      var k := (day - first) / 7;
      assert day - first == 7 * k;
    }
  }

  /** The last occurrence lies in the month's final seven days, falls on
      `weekday`, and no later day of the month does. */
  lemma LastOccurrenceIsLast(year: int, month: int, weekday: DayOfWeek)
    requires YearInRange(year) && 1 <= month <= 12
    ensures var last, dim := LastOccurrenceDay(year, month, weekday), DaysInMonth(year, month);
      && dim - 7 < last <= dim
      && DayOfWeekOf(Date(year, month, last)) == weekday
      && forall day :: last < day <= dim ==> DayOfWeekOf(Date(year, month, day)) != weekday
  {
    var last, dim := LastOccurrenceDay(year, month, weekday), DaysInMonth(year, month);
    var first := FirstOccurrenceDay(year, month, weekday);
    LastOccurrenceArithmetic(year, month, weekday);
    WeekdayMatches(year, month, weekday, last);
    forall day | last < day <= dim
      ensures DayOfWeekOf(Date(year, month, day)) != weekday
    {
      assert !WholeWeeksApart(day, first);
      WeekdayMatches(year, month, weekday, day);
    }
  }

  /** `LastDayArithmetic` applied to a month. */
  lemma LastOccurrenceArithmetic(year: int, month: int, weekday: DayOfWeek)
    requires YearInRange(year) && 1 <= month <= 12
    ensures var last, dim := LastOccurrenceDay(year, month, weekday), DaysInMonth(year, month);
      var first := FirstOccurrenceDay(year, month, weekday);
      && dim - 7 < last <= dim
      && (last - first) % 7 == 0
      && forall day :: last < day <= dim ==> !WholeWeeksApart(day, first)
  {
    var dim := DaysInMonth(year, month);
    var f, w := WeekdayIndex(Date(year, month, 1)), weekday.Index();
    var lastDay := LastDayOfMonth(year, month);
    assert lastDay == Date(year, month, dim);
    WeekdayInMonth(year, month, dim);
    assert WeekdayIndex(lastDay) == (f + dim - 1) % 7;
    assert FirstOccurrenceDay(year, month, weekday) == 1 + (w - f) % 7;
    LastDayArithmetic(f, w, dim);
  }

  predicate WholeWeeksApart(day1: int, day2: int)
  {
    (day1 - day2) % 7 == 0
  }

  /** Counting back from the month's last day to the requested weekday
      (the weekday arithmetic behind `LastOccurrenceIsLast`, on underlying
      values): the day reached is a whole number of weeks after the first
      occurrence, and no later day is. */
  lemma LastDayArithmetic(firstIndex: int, weekdayIndex: int, dim: int)
    requires 0 <= firstIndex < 7 && 0 <= weekdayIndex < 7 && 28 <= dim
    ensures var last := dim - ((firstIndex + dim - 1) % 7 - weekdayIndex) % 7;
      var first := 1 + (weekdayIndex - firstIndex) % 7;
      && dim - 7 < last <= dim
      && (last - first) % 7 == 0
      && forall day :: last < day <= dim ==> !WholeWeeksApart(day, first)
  {
    var lastIndex := (firstIndex + dim - 1) % 7;
    var a, b := (lastIndex - weekdayIndex) % 7, (weekdayIndex - firstIndex) % 7;
    var q1, q2, q3 := (lastIndex - weekdayIndex) / 7, (weekdayIndex - firstIndex) / 7, (firstIndex + dim - 1) / 7;
    assert lastIndex - weekdayIndex == 7 * q1 + a;
    assert weekdayIndex - firstIndex == 7 * q2 + b;
    assert firstIndex + dim - 1 == 7 * q3 + lastIndex;
    var last, first := dim - a, 1 + b;
    var k := q1 + q2 + q3;
    assert last - first == 7 * k + 0;
    WholeWeeksPlus(k, 0);
    forall day | last < day <= dim
      ensures !WholeWeeksApart(day, first)
    {
      assert day - first == 7 * k + (day - last);
      WholeWeeksPlus(k, day - last);
    }
  }

  // ---------------------------------------------------------------------
  // Relative-weekday rules: the walk through the month
  // ---------------------------------------------------------------------

  /** `GenerateRelativeWeekdayHoliday`: for "last" (-1) it steps back from
      the month's last day to the first day on the requested weekday; for
      any other index it steps forward from the first, counting matching
      days, and fails once the month is exhausted.  The result is never
      moved off a weekend.  The month is a `DateOnly` argument, so a month
      outside 1..12 escapes as an out-of-range error. */
  method GenerateRelativeWeekdayHoliday(year: int, holiday: HolidayDefinition) returns (r: Result<Date, GeneratorError>)
    requires YearInRange(year) && holiday.RelativeWeekday?
    ensures r == RelativeWeekdayDate(year, holiday)
  {
    var month, weekday := holiday.month, holiday.weekday;
    if !(1 <= month <= 12) {
      return Failure(MonthOutOfRange(month));
    }
    if holiday.day == -1 {
      var targetDate := WalkBackToWeekday(year, month, weekday);
      return Success(targetDate);
    }
    var found := CountForwardToOccurrence(year, month, weekday, holiday.day);
    if found.Some? {
      return Success(found.value);
    }
    return Failure(OccurrenceNotFound(holiday.name, holiday.day, weekday, month, year));
  }

  /** The "last" branch (lines 104-112): from the month's last day, step back
      until the day of the week matches. */
  method WalkBackToWeekday(year: int, month: int, weekday: DayOfWeek) returns (targetDate: Date)
    requires YearInRange(year) && 1 <= month <= 12
    ensures targetDate == Date(year, month, LastOccurrenceDay(year, month, weekday))
  {
    var lastDayOfMonth := LastDayOfMonth(year, month);
    targetDate := lastDayOfMonth;
    while DayOfWeekOf(targetDate) != weekday
      invariant targetDate == Date(year, month, targetDate.day)
      invariant LastOccurrenceDay(year, month, weekday) <= targetDate.day <= DaysInMonth(year, month)
      decreases targetDate.day
    {
      StepBackWithinMonth(year, month, weekday, targetDate.day);
      targetDate := PreviousDay(targetDate);
    }
    StepBackWithinMonth(year, month, weekday, targetDate.day);
  }

  /** The "nth" branch (lines 115-129): walk forward from the first of the
      month, counting days on `weekday`, and stop when the count reaches `n`;
      `None` once the month is exhausted. */
  method CountForwardToOccurrence(year: int, month: int, weekday: DayOfWeek, n: int) returns (found: Option<Date>)
    requires YearInRange(year) && 1 <= month <= 12
    ensures found == NthOccurrenceDate(year, month, weekday, n)
  {
    var lastDayOfMonth := LastDayOfMonth(year, month);
    var currentDate := Date(year, month, 1);
    var occurrenceCount := 0;
    ghost var dim := DaysInMonth(year, month);
    ghost var day := 1;
    StepForward(year, month, 0);
    while OnOrBefore(currentDate, lastDayOfMonth)
      invariant 1 <= day <= dim + 1
      invariant OnOrBefore(currentDate, lastDayOfMonth) <==> day <= dim
      invariant day <= dim ==> currentDate == Date(year, month, day)
      invariant occurrenceCount == Occurrences(year, month, weekday, day - 1)
      invariant n < 1 || occurrenceCount < n
      decreases dim + 1 - day
    {
      OccurrencesStep(year, month, weekday, day);
      if DayOfWeekOf(currentDate) == weekday {
        occurrenceCount := occurrenceCount + 1;
        if occurrenceCount == n {
          NthOccurrenceFound(year, month, weekday, n, day);
          return Some(currentDate);
        }
      }
      StepForward(year, month, day);
      currentDate := NextDay(currentDate);
      day := day + 1;
    }
    NthOccurrenceMissing(year, month, weekday, n);
    return None;
  }

  /** The day where the count reaches `n` is the `n`th occurrence. */
  lemma NthOccurrenceFound(year: int, month: int, weekday: DayOfWeek, n: int, day: int)
    requires YearInRange(year) && 1 <= month <= 12 && n >= 1 && 1 <= day <= DaysInMonth(year, month)
    requires DayOfWeekOf(Date(year, month, day)) == weekday && Occurrences(year, month, weekday, day) == n
    ensures NthOccurrenceDate(year, month, weekday, n) == Some(Date(year, month, day))
  {
    NthOccurrenceIsCounted(year, month, weekday, n);
  }

  /** A month with fewer than `n` occurrences has no `n`th one. */
  lemma NthOccurrenceMissing(year: int, month: int, weekday: DayOfWeek, n: int)
    requires YearInRange(year) && 1 <= month <= 12
    requires n < 1 || Occurrences(year, month, weekday, DaysInMonth(year, month)) < n
    ensures NthOccurrenceDate(year, month, weekday, n) == None
  {
    if n >= 1 {
      NthOccurrenceIsCounted(year, month, weekday, n);
    }
  }

  /** One step of the backward walk: from a day at or after the last
      occurrence, the weekday matches only at the last occurrence, and any
      later day has its predecessor in the same month. */
  lemma StepBackWithinMonth(year: int, month: int, weekday: DayOfWeek, day: int)
    requires YearInRange(year) && 1 <= month <= 12
    requires LastOccurrenceDay(year, month, weekday) <= day <= DaysInMonth(year, month)
    ensures DayOfWeekOf(Date(year, month, day)) == weekday <==> day == LastOccurrenceDay(year, month, weekday)
    ensures day > LastOccurrenceDay(year, month, weekday) ==> PreviousDay(Date(year, month, day)) == Date(year, month, day - 1)
  {
    LastOccurrenceIsLast(year, month, weekday);
  }

  /** Counting one more day adds one exactly when that day is on `weekday`. */
  lemma OccurrencesStep(year: int, month: int, weekday: DayOfWeek, day: int)
    requires YearInRange(year) && 1 <= month <= 12 && 1 <= day <= DaysInMonth(year, month)
    ensures DayOfWeekOf(Date(year, month, day)) == weekday ==>
      Occurrences(year, month, weekday, day) == Occurrences(year, month, weekday, day - 1) + 1
    ensures DayOfWeekOf(Date(year, month, day)) != weekday ==>
      Occurrences(year, month, weekday, day) == Occurrences(year, month, weekday, day - 1)
  {
  }

  /** One step of the forward walk: the day after a day of the month is the
      next day of the month, and is on or before the month's last day exactly
      when the month is not over. */
  lemma StepForward(year: int, month: int, day: int)
    requires YearInRange(year) && 1 <= month <= 12 && 0 <= day <= DaysInMonth(year, month)
    ensures var next := if day == 0 then Date(year, month, 1) else NextDay(Date(year, month, day));
      && (day < DaysInMonth(year, month) ==> next == Date(year, month, day + 1))
      && (OnOrBefore(next, LastDayOfMonth(year, month)) <==> day < DaysInMonth(year, month))
  {
  }

  // ---------------------------------------------------------------------
  // One rule
  // ---------------------------------------------------------------------

  /** The date a rule resolves to in `year`, or the error resolving it throws. */
  function HolidayDate(year: int, holiday: HolidayDefinition): Result<Date, GeneratorError>
    requires YearInRange(year)
  {
    match holiday
    case FixedDate(_, _, _) => GenerateFixedDateHoliday(year, holiday)
    case RelativeWeekday(_, _, _, _) => RelativeWeekdayDate(year, holiday)
  }

  /** `GenerateHolidayDate`: dispatches on whether the rule names a day of
      the week. */
  method GenerateHolidayDate(year: int, holiday: HolidayDefinition) returns (r: Result<Date, GeneratorError>)
    requires YearInRange(year)
    ensures r == HolidayDate(year, holiday)
  {
    if holiday.OptionalDayOfWeek().Some? {
      r := GenerateRelativeWeekdayHoliday(year, holiday);
    } else {
      r := GenerateFixedDateHoliday(year, holiday);
    }
  }

  // ---------------------------------------------------------------------
  // The whole schedule: reference definitions
  // ---------------------------------------------------------------------

  /** Resolves the rules in order; the first rule that fails decides the
      error and no dates are returned. */
  function ResolveAll(year: int, holidays: seq<HolidayDefinition>): (r: Result<seq<Date>, GeneratorError>)
    requires YearInRange(year)
    ensures r.Success? ==> |r.value| == |holidays|
  {
    if holidays == [] then Success([])
    else
      match ResolveAll(year, holidays[..|holidays| - 1])
      case Failure(e) => Failure(e)
      case Success(dates) =>
        match HolidayDate(year, holidays[|holidays| - 1])
        case Failure(e) => Failure(e)
        case Success(d) => Success(dates + [d])
  }

  /** Resolving the rules in order: the result is every rule's date, rule by
      rule, when all of them resolve, and otherwise the error of the first
      rule that fails. */
  lemma ResolveAllMeaning(year: int, holidays: seq<HolidayDefinition>)
    requires YearInRange(year)
    ensures var r := ResolveAll(year, holidays);
      && (r.Success? <==> forall i :: 0 <= i < |holidays| ==> HolidayDate(year, holidays[i]).Success?)
      && (r.Success? ==> forall i :: 0 <= i < |holidays| ==> HolidayDate(year, holidays[i]) == Success(r.value[i]))
      && (r.Failure? ==>
            exists i :: && 0 <= i < |holidays|
                        && HolidayDate(year, holidays[i]) == Failure(r.error)
                        && forall j :: 0 <= j < i ==> HolidayDate(year, holidays[j]).Success?)
  {
    ResolvedDates(year, holidays);
    FirstFailure(year, holidays);
  }

  lemma {:induction false} ResolvedDates(year: int, holidays: seq<HolidayDefinition>)
    requires YearInRange(year)
    ensures var r := ResolveAll(year, holidays);
      r.Success? ==> forall i :: 0 <= i < |holidays| ==> HolidayDate(year, holidays[i]) == Success(r.value[i])
  {
    if holidays != [] {
      var n := |holidays| - 1;
      var init := holidays[..n];
      ResolvedDates(year, init);
      var r := ResolveAll(year, holidays);
      if r.Success? {
        var dates, d := ResolveAll(year, init).value, HolidayDate(year, holidays[n]).value;
        assert r.value == dates + [d];
        forall i | 0 <= i < n
          ensures HolidayDate(year, holidays[i]) == Success(r.value[i])
        {
          assert init[i] == holidays[i];
          assert r.value[i] == dates[i];
        }
      }
    }
  }

  lemma {:induction false} FirstFailure(year: int, holidays: seq<HolidayDefinition>)
    requires YearInRange(year)
    ensures var r := ResolveAll(year, holidays);
      && ((forall i :: 0 <= i < |holidays| ==> HolidayDate(year, holidays[i]).Success?) ==> r.Success?)
      && (r.Failure? ==>
            exists i :: && 0 <= i < |holidays|
                        && HolidayDate(year, holidays[i]) == Failure(r.error)
                        && forall j :: 0 <= j < i ==> HolidayDate(year, holidays[j]).Success?)
  {
    if holidays != [] {
      var n := |holidays| - 1;
      var init := holidays[..n];
      FirstFailure(year, init);
      ResolvedDates(year, init);
      assert forall i :: 0 <= i < n ==> init[i] == holidays[i];
      if ResolveAll(year, init).Success? && HolidayDate(year, holidays[n]).Failure? {
        assert forall j :: 0 <= j < n ==> HolidayDate(year, holidays[j]).Success?;
      }
    }
  }

  /** The dictionary filled with `TryAdd`: each date maps to the rule of its
      first occurrence; later rules on the same date are dropped. */
  function FirstClaims(dates: seq<Date>, holidays: seq<HolidayDefinition>): (m: map<Date, HolidayDefinition>)
    requires |dates| == |holidays|
    ensures forall d :: d in m <==> d in dates
  {
    if dates == [] then map[]
    else
      var n := |dates| - 1;
      var m := FirstClaims(dates[..n], holidays[..n]);
      if dates[n] in m then m else m[dates[n] := holidays[n]]
  }

  /** The first rule to produce a date is the one the dictionary keeps. */
  lemma {:induction false} FirstClaimWins(dates: seq<Date>, holidays: seq<HolidayDefinition>, k: int)
    requires |dates| == |holidays| && 0 <= k < |dates|
    requires forall j :: 0 <= j < k ==> dates[j] != dates[k]
    ensures dates[k] in FirstClaims(dates, holidays)
    ensures FirstClaims(dates, holidays)[dates[k]] == holidays[k]
  {
    var n := |dates| - 1;
    var prefix := FirstClaims(dates[..n], holidays[..n]);
    if k < n {
      FirstClaimWins(dates[..n], holidays[..n], k);
    } else {
      assert dates[k] !in dates[..n];
    }
  }

  /** What `GenerateForYear` computes before ordering: the validation error,
      the first resolution error, or the first-claim dictionary. */
  function Schedule(year: int, holidays: Option<seq<HolidayDefinition>>): Result<map<Date, HolidayDefinition>, GeneratorError>
  {
    match ValidateInputs(year, holidays)
    case Some(e) => Failure(e)
    case None =>
      match ResolveAll(year, holidays.value)
      case Failure(e) => Failure(e)
      case Success(dates) => Success(FirstClaims(dates, holidays.value))
  }

  /** Dates strictly increase along the sequence. */
  predicate StrictlyIncreasing(entries: seq<Entry>)
  {
    forall i, j :: 0 <= i < j < |entries| ==> Before(entries[i].0, entries[j].0)
  }

  /** `entries` lists the dictionary's pairs in ascending date order. */
  ghost predicate IsOrderedListing(entries: seq<Entry>, m: map<Date, HolidayDefinition>)
  {
    && StrictlyIncreasing(entries)
    && forall e :: e in entries <==> e.0 in m && m[e.0] == e.1
  }

  // ---------------------------------------------------------------------
  // The whole schedule: the generator
  // ---------------------------------------------------------------------

  /** Places an entry with a new date into an ordered listing. */
  function InsertByDate(entries: seq<Entry>, entry: Entry): (r: seq<Entry>)
    requires StrictlyIncreasing(entries)
    requires forall e :: e in entries ==> e.0 != entry.0
    ensures StrictlyIncreasing(r)
    ensures forall e :: e in r <==> e in entries || e == entry
  {
    if entries == [] then [entry]
    else if Before(entry.0, entries[0].0) then
      HeadBeforeAll(entries, entry.0);
      ConsIncreasing(entry, entries);
      [entry] + entries
    else
      var rest := InsertByDate(entries[1..], entry);
      HeadBeforeRest(entries, entry);
      ConsIncreasing(entries[0], rest);
      [entries[0]] + rest
  }

  lemma ConsIncreasing(x: Entry, rest: seq<Entry>)
    requires StrictlyIncreasing(rest)
    requires forall e :: e in rest ==> Before(x.0, e.0)
    ensures StrictlyIncreasing([x] + rest)
  {
    var s := [x] + rest;
    forall i, j | 0 <= i < j < |s|
      ensures Before(s[i].0, s[j].0)
    {
      if i == 0 {
        assert s[j] == rest[j - 1] && s[j] in rest;
      } else {
        assert s[i] == rest[i - 1] && s[j] == rest[j - 1];
      }
    }
  }

  lemma HeadBeforeAll(entries: seq<Entry>, d: Date)
    requires StrictlyIncreasing(entries) && entries != [] && Before(d, entries[0].0)
    ensures forall e :: e in entries ==> Before(d, e.0)
  {
    forall e | e in entries
      ensures Before(d, e.0)
    {
      LeastEntry(entries, e);
    }
  }

  lemma HeadBeforeRest(entries: seq<Entry>, entry: Entry)
    requires StrictlyIncreasing(entries) && entries != []
    requires !Before(entry.0, entries[0].0) && entry.0 != entries[0].0
    ensures forall e :: e in entries[1..] || e == entry ==> Before(entries[0].0, e.0)
  {
    forall e | e in entries[1..]
      ensures Before(entries[0].0, e.0)
    {
      LaterEntry(entries, e);
    }
  }

  /** `OrderBy(d => d.Key)` over the dictionary's pairs. */
  method OrderByDate(m: map<Date, HolidayDefinition>) returns (entries: seq<Entry>)
    ensures IsOrderedListing(entries, m)
  {
    entries := [];
    var pending := m.Keys;
    while pending != {}
      invariant pending <= m.Keys
      invariant StrictlyIncreasing(entries)
      invariant forall e :: e in entries <==> e.0 in m && e.0 !in pending && m[e.0] == e.1
      decreases |pending|
    {
      var d :| d in pending;
      entries := InsertByDate(entries, (d, m[d]));
      pending := pending - {d};
    }
  }

  /** `GenerateForYear`: validates, resolves every rule in order into a
      dictionary where the first rule to claim a date keeps it, and returns
      the pairs ordered by date.  Any error aborts the whole call. */
  method GenerateForYear(year: int, holidays: Option<seq<HolidayDefinition>>) returns (r: Result<seq<Entry>, GeneratorError>)
    ensures r.Failure? <==> Schedule(year, holidays).Failure?
    ensures r.Failure? ==> r.error == Schedule(year, holidays).error
    ensures r.Success? ==> IsOrderedListing(r.value, Schedule(year, holidays).value)
  {
    var invalid := ValidateInputs(year, holidays);
    if invalid.Some? {
      return Failure(invalid.value);
    }
    var rules := holidays.value;
    var generatedDates: map<Date, HolidayDefinition> := map[];
    ghost var dates: seq<Date> := [];
    for i := 0 to |rules|
      invariant ResolveAll(year, rules[..i]) == Success(dates)
      invariant |dates| == i && generatedDates == FirstClaims(dates, rules[..i])
    {
      var date := GenerateHolidayDate(year, rules[i]);
      if date.Failure? {
        ResolveFailureStep(year, rules, i, dates, date.error);
        return Failure(date.error);
      }
      ResolveSuccessStep(year, rules, i, dates, date.value);
      FirstClaimsStep(dates, rules, i, date.value);
      if date.value !in generatedDates {
        generatedDates := generatedDates[date.value := rules[i]];
      }
      dates := dates + [date.value];
    }
    ScheduleOfResolved(year, rules, dates);
    var ordered := OrderByDate(generatedDates);
    return Success(ordered);
  }

  /** A rule that fails after the earlier ones resolved fails the whole
      schedule with its own error. */
  lemma ResolveFailureStep(year: int, rules: seq<HolidayDefinition>, i: int, dates: seq<Date>, e: GeneratorError)
    requires YearInRange(year) && 0 <= i < |rules|
    requires ResolveAll(year, rules[..i]) == Success(dates) && HolidayDate(year, rules[i]) == Failure(e)
    ensures Schedule(year, Some(rules)) == Failure(e)
  {
    assert rules[..i + 1][..i] == rules[..i];
    assert ResolveAll(year, rules[..i + 1]) == Failure(e);
    ResolveAllPrefix(year, rules, i + 1);
  }

  /** A rule that resolves after the earlier ones extends their dates. */
  lemma ResolveSuccessStep(year: int, rules: seq<HolidayDefinition>, i: int, dates: seq<Date>, d: Date)
    requires YearInRange(year) && 0 <= i < |rules|
    requires ResolveAll(year, rules[..i]) == Success(dates) && HolidayDate(year, rules[i]) == Success(d)
    ensures ResolveAll(year, rules[..i + 1]) == Success(dates + [d])
  {
    assert rules[..i + 1][..i] == rules[..i];
  }

  /** `TryAdd` of one more pair: a date already present keeps its rule. */
  lemma FirstClaimsStep(dates: seq<Date>, rules: seq<HolidayDefinition>, i: int, d: Date)
    requires 0 <= i < |rules| && |dates| == i
    ensures var m := FirstClaims(dates, rules[..i]);
      FirstClaims(dates + [d], rules[..i + 1]) == if d in m then m else m[d := rules[i]]
  {
    assert rules[..i + 1][..i] == rules[..i];
    assert (dates + [d])[..i] == dates;
  }

  /** Once every rule is resolved the schedule is their first-claim dictionary. */
  lemma ScheduleOfResolved(year: int, rules: seq<HolidayDefinition>, dates: seq<Date>)
    requires YearInRange(year) && ResolveAll(year, rules[..|rules|]) == Success(dates)
    ensures Schedule(year, Some(rules)) == Success(FirstClaims(dates, rules[..|rules|]))
  {
    assert rules[..|rules|] == rules;
  }

  /** A failure among the first `n` rules is the failure of all of them. */
  lemma {:induction false} ResolveAllPrefix(year: int, holidays: seq<HolidayDefinition>, n: nat)
    requires YearInRange(year) && n <= |holidays|
    requires ResolveAll(year, holidays[..n]).Failure?
    ensures ResolveAll(year, holidays) == ResolveAll(year, holidays[..n])
    decreases |holidays| - n
  {
    if n < |holidays| {
      assert holidays[..n + 1][..n] == holidays[..n];
      ResolveAllFailureStep(year, holidays[..n + 1]);
      ResolveAllPrefix(year, holidays, n + 1);
    } else {
      assert holidays[..n] == holidays;
    }
  }

  /** A failure of all but the last rule is the failure of all of them. */
  lemma ResolveAllFailureStep(year: int, holidays: seq<HolidayDefinition>)
    requires YearInRange(year) && holidays != []
    requires ResolveAll(year, holidays[..|holidays| - 1]).Failure?
    ensures ResolveAll(year, holidays) == ResolveAll(year, holidays[..|holidays| - 1])
  {
  }

  // ---------------------------------------------------------------------
  // Properties of the schedule
  // ---------------------------------------------------------------------

  /** The year is checked before anything else: an out-of-range year is
      reported even when the rule list is null or would fail. */
  lemma YearCheckedFirst(year: int, holidays: Option<seq<HolidayDefinition>>)
    requires !YearInRange(year)
    ensures Schedule(year, holidays) == Failure(YearOutOfRange(year))
  {
  }

  /** A null rule list in a valid year is rejected; an empty one gives an
      empty schedule. */
  lemma NullAndEmptyRuleLists(year: int)
    requires YearInRange(year)
    ensures Schedule(year, None) == Failure(NullHolidays)
    ensures Schedule(year, Some([])) == Success(map[])
  {
  }

  /** Two ordered listings of the same dictionary are the same sequence, so
      the generator's output is determined by the dictionary. */
  lemma {:induction false} ListingUnique(a: seq<Entry>, b: seq<Entry>, m: map<Date, HolidayDefinition>)
    requires IsOrderedListing(a, m) && IsOrderedListing(b, m)
    ensures a == b
  {
    SameEntriesSameListing(a, b);
  }

  lemma {:induction false} SameEntriesSameListing(a: seq<Entry>, b: seq<Entry>)
    requires StrictlyIncreasing(a) && StrictlyIncreasing(b)
    requires forall e :: e in a <==> e in b
    ensures a == b
    decreases |a|
  {
    if a != [] && b != [] {
      if a[0] != b[0] {
        LeastEntry(a, b[0]);
        LeastEntry(b, a[0]);
        assert false;
      }
      assert a == [a[0]] + a[1..] && b == [b[0]] + b[1..];
      forall e
        ensures e in a[1..] <==> e in b[1..]
      {
        if e in a[1..] {
          LaterEntry(a, e);
          assert e in b && e != b[0];
        }
        if e in b[1..] {
          LaterEntry(b, e);
          assert e in a && e != a[0];
        }
      }
      SameEntriesSameListing(a[1..], b[1..]);
    } else {
      SameMembersBothEmpty(a, b);
    }
  }

  lemma SameMembersBothEmpty<T>(a: seq<T>, b: seq<T>)
    requires forall e :: e in a <==> e in b
    ensures a == [] <==> b == []
  {
    if a != [] {
      assert a[0] in b;
    }
    if b != [] {
      assert b[0] in a;
    }
  }

  /** Every entry of an ordered listing is on or after its first one. */
  lemma LeastEntry(s: seq<Entry>, e: Entry)
    requires StrictlyIncreasing(s) && e in s
    ensures e == s[0] || Before(s[0].0, e.0)
  {
  }

  /** An entry past the head is strictly after it, hence not the head. */
  lemma LaterEntry(s: seq<Entry>, e: Entry)
    requires StrictlyIncreasing(s) && s != [] && e in s[1..]
    ensures e != s[0] && Before(s[0].0, e.0)
  {
    var i :| 0 <= i < |s[1..]| && s[1..][i] == e;
    assert s[i + 1] == e;
  }

  /** The index of the first occurrence of a date. */
  function FirstIndexOf(dates: seq<Date>, d: Date): (k: nat)
    requires d in dates
    ensures k < |dates| && dates[k] == d
    ensures forall j :: 0 <= j < k ==> dates[j] != d
  {
    if dates[0] == d then 0 else 1 + FirstIndexOf(dates[1..], d)
  }

  /** In a successful schedule every rule produced a date that is in the
      dictionary, and each date is kept by the first rule that produced it. */
  lemma ScheduleEntries(year: int, holidays: seq<HolidayDefinition>)
    requires Schedule(year, Some(holidays)).Success?
    ensures YearInRange(year)
    ensures forall i :: 0 <= i < |holidays| ==>
      && HolidayDate(year, holidays[i]).Success?
      && HolidayDate(year, holidays[i]).value in Schedule(year, Some(holidays)).value
    ensures forall d :: d in Schedule(year, Some(holidays)).value ==>
      exists i ::
        && 0 <= i < |holidays|
        && HolidayDate(year, holidays[i]) == Success(d)
        && Schedule(year, Some(holidays)).value[d] == holidays[i]
        && forall j :: 0 <= j < i ==> HolidayDate(year, holidays[j]) != Success(d)
  {
    ResolveAllMeaning(year, holidays);
    var dates := ResolveAll(year, holidays).value;
    var m := FirstClaims(dates, holidays);
    assert Schedule(year, Some(holidays)).value == m;
    forall d | d in m
      ensures exists i ::
        && 0 <= i < |holidays|
        && HolidayDate(year, holidays[i]) == Success(d)
        && m[d] == holidays[i]
        && forall j :: 0 <= j < i ==> HolidayDate(year, holidays[j]) != Success(d)
    {
      var k := FirstIndexOf(dates, d);
      FirstClaimWins(dates, holidays, k);
      assert HolidayDate(year, holidays[k]) == Success(d);
    }
  }

  // ---------------------------------------------------------------------
  // Worked examples
  // ---------------------------------------------------------------------

  /** Christmas 2021 fell on a Saturday and is observed on Friday the 24th;
      New Year's Day 2022 fell on a Saturday and is observed on Friday
      31 December 2021; 30 February is no date. */
  lemma FixedDateExamples()
    ensures HolidayDate(2021, FixedDate("Christmas Day", 12, 25)) == Success(Date(2021, 12, 24))
    ensures HolidayDate(2022, FixedDate("New Year's Day", 1, 1)) == Success(Date(2021, 12, 31))
    ensures HolidayDate(2023, FixedDate("Independence Day", 7, 4)) == Success(Date(2023, 7, 4))
    ensures HolidayDate(2023, FixedDate("Bad", 2, 30)) == Failure(InvalidDate("Bad", 2023, 2, 30))
  {
    assert DayOfWeekOf(Date(2021, 12, 25)) == Saturday;
    assert DayOfWeekOf(Date(2022, 1, 1)) == Saturday;
    assert DayOfWeekOf(Date(2023, 7, 4)) == Tuesday;
  }

  /** Memorial Day 2024, the last Monday in May, is 27 May. */
  lemma LastMondayExample()
    ensures HolidayDate(2024, RelativeWeekday("Memorial Day", 5, -1, Monday)) == Success(Date(2024, 5, 27))
  {
    var lastDay := LastDayOfMonth(2024, 5);
    assert lastDay == Date(2024, 5, 31);
    assert WeekdayIndex(lastDay) == 5;
  }

  /** Thanksgiving 2023, the fourth Thursday in November, is 23 November. */
  lemma FourthThursdayExample()
    ensures HolidayDate(2023, RelativeWeekday("Thanksgiving", 11, 4, Thursday)) == Success(Date(2023, 11, 23))
  {
    assert WeekdayIndex(Date(2023, 11, 1)) == 3;
    assert FirstOccurrenceDay(2023, 11, Thursday) == 2;
  }

  /** April 2024 has no sixth Monday. */
  lemma MissingOccurrenceExample()
    ensures HolidayDate(2024, RelativeWeekday("None", 4, 6, Monday))
         == Failure(OccurrenceNotFound("None", 6, Monday, 4, 2024))
  {
    assert WeekdayIndex(Date(2024, 4, 1)) == 1;
    assert NthOccurrenceDay(2024, 4, Monday, 6) == 36;
  }

  /** The accepted years are exactly 1800 through 9999. */
  lemma YearBoundaryExamples()
    ensures Schedule(1799, Some([])) == Failure(YearOutOfRange(1799))
    ensures Schedule(10000, Some([])) == Failure(YearOutOfRange(10000))
    ensures Schedule(1800, Some([])).Success? && Schedule(9999, Some([])).Success?
  {
  }

  // ---------------------------------------------------------------------
  // End of month as the source computes it
  // ---------------------------------------------------------------------

  /** The last day of the month as line 101 computes it: the first of the
      month, plus one month, minus one day.  Adding a month to December 9999
      leaves the representable range and fails. */
  function EndOfMonthAsWritten(year: int, month: int): (r: Option<Date>)
    requires MinimumDateYear <= year <= MaximumDateYear && 1 <= month <= 12
    ensures r.Some? <==> year < MaximumDateYear || month < 12
  {
    match AddOneMonth(Date(year, month, 1))
    case None => None
    case Some(next) => Some(PreviousDay(next))
  }

  /** Year 9999 passes validation, yet the end of its December cannot be
      computed the way line 101 does: every relative rule for December
      9999 fails there instead of returning a date or `OccurrenceNotFound`. */
  lemma EndOfMonthFailsInDecember9999()
    ensures YearInRange(9999) && ValidateInputs(9999, Some([])).None?
    ensures EndOfMonthAsWritten(9999, 12).None?
  {
  }

  /** Wherever the computation of line 101 succeeds it agrees with
      `LastDayOfMonth`, which the model uses for every month. */
  lemma EndOfMonthAgrees(year: int, month: int)
    requires MinimumDateYear <= year <= MaximumDateYear && 1 <= month <= 12
    ensures EndOfMonthAsWritten(year, month).Some? ==>
      EndOfMonthAsWritten(year, month).value == LastDayOfMonth(year, month)
  {
    if EndOfMonthAsWritten(year, month).Some? {
      var next := AddOneMonth(Date(year, month, 1)).value;
      var last := LastDayOfMonth(year, month);
      NextAndPreviousAreInverse(last);
      assert NextDay(last) == next;
    }
  }

  /** With the end of the month computed directly, December 9999 resolves
      like any other month: its last Friday is its last day. */
  lemma December9999Resolves()
    ensures HolidayDate(9999, RelativeWeekday("Year End", 12, -1, Friday)) == Success(Date(9999, 12, 31))
  {
    assert WeekdayIndex(Date(9999, 12, 31)) == 5;
  }

  /** Line 128 steps to the next day before it tests the bound again, so a
      walk that finds no occurrence in December 9999 last steps from
      31 December 9999 to a date `DateOnly` cannot hold.  December 9999 has
      only four Mondays, the last on the 27th. */
  lemma ForwardWalkLeavesRange()
    ensures LastDayOfMonth(9999, 12) == Date(9999, 12, 31)
    ensures NextDay(Date(9999, 12, 31)) == Date(10000, 1, 1) && !InDateOnlyRange(Date(10000, 1, 1))
    ensures NthOccurrenceDate(9999, 12, Monday, 4) == Some(Date(9999, 12, 27))
    ensures NthOccurrenceDate(9999, 12, Monday, 5) == None
  {
    assert WeekdayIndex(Date(9999, 12, 1)) == 3;
    assert FirstOccurrenceDay(9999, 12, Monday) == 6;
  }

  /** With the walk stopping at the end of the month, a missing occurrence in
      December 9999 is the not-found error, as in any other month. */
  lemma MissingOccurrenceInDecember9999()
    ensures HolidayDate(9999, RelativeWeekday("x", 12, 5, Monday)) == Failure(OccurrenceNotFound("x", 5, Monday, 12, 9999))
  {
    assert WeekdayIndex(Date(9999, 12, 1)) == 3;
    assert NthOccurrenceDay(9999, 12, Monday, 5) == 34;
  }

  /** A rule built with the three-argument constructor has month 0 and can
      never be generated; the rule it was meant to build can. */
  lemma FixedConstructorRuleFails(year: int, name: string, month: int, day: int)
    requires YearInRange(year)
    ensures HolidayDate(year, NewFixedHolidayDefinition(name, month, day)) == Failure(InvalidDate("", year, 0, 0))
    ensures ValidDate(Date(year, month, day)) ==>
      HolidayDate(year, IntendedFixedHolidayDefinition(name, month, day)).Success?
  {
  }
}
