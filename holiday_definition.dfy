/** The rule value type of the holiday generator (`HolidayDefinition`).  The
    source keeps one class whose nullable `DayOfWeek` property tells the two
    shapes apart; here each shape is a variant, and `OptionalDayOfWeek`
    recovers the property.  Properties with protected setters that only the
    constructor assigns make the class immutable to callers, which a datatype
    value is by construction. */
module HolidayDefinitions {
  import opened Wrappers
  import opened Calendar
  import opened NumberUtility

  /** `day` is the day of the month for a fixed rule, and the occurrence
      index (-1 for "last") for a relative rule.  `month` is the underlying
      value of the `Month` enum (January = 1).  A null name is represented by
      the empty string, which is how string interpolation renders it. */
  datatype HolidayDefinition =
    | FixedDate(name: string, month: int, day: int)
    | RelativeWeekday(name: string, month: int, day: int, weekday: DayOfWeek)
  {
    /** The nullable `DayOfWeek` property. */
    function OptionalDayOfWeek(): (w: Option<DayOfWeek>)
      ensures w.Some? <==> RelativeWeekday?
      ensures RelativeWeekday? ==> w == Some(weekday)
    {
      match this
      case FixedDate(_, _, _) => None
      case RelativeWeekday(_, _, _, wd) => Some(wd)
    }
  }

  /** The four-argument constructor: it stores its arguments unchanged, and
      the rule is relative exactly when a day of the week is given. */
  function NewHolidayDefinition(name: string, month: int, dayNumber: int, dayOfWeek: Option<DayOfWeek>): (h: HolidayDefinition)
    ensures h.name == name && h.month == month && h.day == dayNumber
    ensures h.OptionalDayOfWeek() == dayOfWeek
    ensures h.RelativeWeekday? <==> dayOfWeek.Some?
  {
    match dayOfWeek
    case None => FixedDate(name, month, dayNumber)
    case Some(w) => RelativeWeekday(name, month, dayNumber, w)
  }

  /** The three-argument "fixed date" constructor.  Its body is empty, so it
      assigns nothing: every property keeps its default (a null name, month
      0, day 0, no day of the week), whatever the arguments were. */
  function NewFixedHolidayDefinition(name: string, month: int, day: int): (h: HolidayDefinition)
    ensures h.FixedDate? && h.OptionalDayOfWeek().None?
    ensures h.name == "" && h.month == 0 && h.day == 0
  {
    FixedDate("", 0, 0)
  }

  /** The three-argument constructor throws its arguments away: all its
      results are the same rule. */
  lemma FixedConstructorIgnoresArguments(name1: string, month1: int, day1: int, name2: string, month2: int, day2: int)
    ensures NewFixedHolidayDefinition(name1, month1, day1) == NewFixedHolidayDefinition(name2, month2, day2)
  {
  }

  /** What the three-argument constructor's documentation describes: a
      fixed-date rule holding the given name, month and day. */
  function IntendedFixedHolidayDefinition(name: string, month: int, day: int): (h: HolidayDefinition)
    ensures h == NewHolidayDefinition(name, month, day, None)
    ensures h.FixedDate? && h.name == name && h.month == month && h.day == day
  {
    FixedDate(name, month, day)
  }

  /** The documented example `new HolidayDefinition("Independence Day",
      Month.July, 4)` describes itself as "0 0th" as written, and as
      "July 4th" when the arguments are kept. */
  lemma FixedConstructorExample()
    ensures ToDateString(NewFixedHolidayDefinition("Independence Day", 7, 4)) == "0 0th"
    ensures ToDateString(IntendedFixedHolidayDefinition("Independence Day", 7, 4)) == "July 4th"
  {
    var asWritten := NewFixedHolidayDefinition("Independence Day", 7, 4);
    assert ToDateString(asWritten) == MonthName(0) + " " + ToOrdinalString(0);
    assert MonthName(0) == "0" by {
      assert NatToString(0) == "0";
    }
    assert ToOrdinalString(0) == "0th" by {
      assert NatToString(0) == "0";
    }
    var intended := IntendedFixedHolidayDefinition("Independence Day", 7, 4);
    assert ToDateString(intended) == MonthName(7) + " " + ToOrdinalString(4);
    assert ToOrdinalString(4) == "4th" by {
      assert NatToString(4) == "4";
    }
  }

  /** The `Month` enum's name; an undefined enum value prints as its number. */
  function MonthName(month: int): (s: string)
    ensures |s| >= 1
  {
    match month
    case 1 => "January"
    case 2 => "February"
    case 3 => "March"
    case 4 => "April"
    case 5 => "May"
    case 6 => "June"
    case 7 => "July"
    case 8 => "August"
    case 9 => "September"
    case 10 => "October"
    case 11 => "November"
    case 12 => "December"
    case _ => IntToString(month)
  }

  /** `HolidayDefinition.ToDateString`: "Last Monday in May" or "4th Thursday
      in November" for a relative rule, "July 4th" for a fixed one. */
  function ToDateString(h: HolidayDefinition): (s: string)
    ensures h.RelativeWeekday? && h.day == -1 ==>
      s == "Last " + h.weekday.Name() + " in " + MonthName(h.month)
    ensures h.RelativeWeekday? && h.day != -1 ==>
      s == ToOrdinalString(h.day) + " " + h.weekday.Name() + " in " + MonthName(h.month)
    ensures h.FixedDate? ==> s == MonthName(h.month) + " " + ToOrdinalString(h.day)
  {
    match h
    case RelativeWeekday(_, month, day, weekday) =>
      var dayString := if day == -1 then "Last" else ToOrdinalString(day);
      dayString + " " + weekday.Name() + " in " + MonthName(month)
    case FixedDate(_, month, day) =>
      MonthName(month) + " " + ToOrdinalString(day)
  }

  /** Different month numbers in 1..12 have different names, none of which
      contains a space. */
  lemma MonthNamesDistinct(m1: int, m2: int)
    requires 1 <= m1 <= 12 && 1 <= m2 <= 12
    ensures ' ' !in MonthName(m1)
    ensures MonthName(m1) == MonthName(m2) ==> m1 == m2
  {
  }

  /** The description of a fixed rule with a real month determines the month
      and the day. */
  lemma FixedDescriptionDeterminesDate(a: HolidayDefinition, b: HolidayDefinition)
    requires a.FixedDate? && b.FixedDate?
    requires 1 <= a.month <= 12 && 1 <= b.month <= 12
    requires ToDateString(a) == ToDateString(b)
    ensures a.month == b.month && a.day == b.day
  {
    MonthNamesDistinct(a.month, b.month);
    MonthNamesDistinct(b.month, a.month);
    SplitAtFirstSpace(MonthName(a.month), ToOrdinalString(a.day), MonthName(b.month), ToOrdinalString(b.day));
    ToOrdinalStringInjective(a.day, b.day);
  }

  lemma CharAfterPrefix(x1: string, y1: string, x2: string, y2: string)
    requires x1 + " " + y1 == x2 + " " + y2 && |x1| < |x2|
    ensures x2[|x1|] == ' '
  {
    var s := x1 + " " + y1;
    assert s[|x1|] == ' ';
    assert (x2 + " " + y2)[|x1|] == x2[|x1|];
  }

  lemma SplitAtFirstSpace(x1: string, y1: string, x2: string, y2: string)
    requires ' ' !in x1 && ' ' !in x2
    requires x1 + " " + y1 == x2 + " " + y2
    ensures x1 == x2 && y1 == y2
  {
    var s := x1 + " " + y1;
    if |x1| < |x2| {
      CharAfterPrefix(x1, y1, x2, y2);
      assert false;
    } else if |x2| < |x1| {
      CharAfterPrefix(x2, y2, x1, y1);
      assert false;
    }
    assert x1 == s[..|x1|] == x2;
    assert y1 == s[|x1| + 1..] == y2;
  }
}
