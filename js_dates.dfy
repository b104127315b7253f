/**
 * The host `Date` object: a mutable box around a time value (`None` is NaN, an "Invalid Date"),
 * its constructor from local calendar fields, and the two setters the utilities use.
 * Everything the host does not define exactly is a parameter: the local time offset and the
 * parser behind `new Date(string)`.
 */
module JsDates {
  import opened Wrappers
  import opened TimeMath

  type TimeValue = Option<int>

  /**
   * The host environment: the fixed local offset (ms east of UTC) and what `new Date(string)`
   * yields for a string, which the language leaves to each engine outside one ISO format.
   */
  datatype Host = Host(offset: int, parse: string -> TimeValue)

  /**
   * `new Date(y, …)` reads a year from 0 to 99 as 1900 + y: the year it uses is never a
   * two-digit one, is either the given year or that year in the 1900s, and any other year is kept.
   */
  function MakeFullYear(year: int): (y: int)
    ensures !(0 <= y <= 99)
    ensures y == year || y == year + 1900
    ensures !(0 <= year <= 99) ==> y == year
  {
    if 0 <= year <= 99 then 1900 + year else year
  }

  /** Time value of `new Date(year, month, date, hours, minutes, seconds, ms)`, fields in local time. */
  function ConstructLocal(year: int, month: int, date: int, hours: int, minutes: int, seconds: int, ms: int, offset: int): int {
    Utc(MakeDate(MakeDay(MakeFullYear(year), month, date), MakeTime(hours, minutes, seconds, ms)), offset)
  }

  /** The local calendar date of a time value. */
  function LocalCivil(t: int, offset: int): (c: Civil)
    ensures ValidCivil(c)
  {
    CivilFromDays(Day(LocalTime(t, offset)))
  }

  /** A date built from valid local fields shows those fields again (years 0..99 excepted). */
  lemma ConstructLocalFields(c: Civil, hours: int, minutes: int, seconds: int, ms: int, offset: int)
    requires ValidCivil(c) && (c.year < 0 || c.year > 99)
    requires 0 <= MakeTime(hours, minutes, seconds, ms) < MsPerDay
    ensures var t := ConstructLocal(c.year, c.month - 1, c.day, hours, minutes, seconds, ms, offset);
      LocalCivil(t, offset) == c && TimeWithinDay(LocalTime(t, offset)) == MakeTime(hours, minutes, seconds, ms)
  {
    var d := DaysFromCivil(c.year, c.month, c.day);
    var w := MakeTime(hours, minutes, seconds, ms);
    ConstructLocalDay(c, hours, minutes, seconds, ms, offset);
    LocalOfUtc(d, w, offset);
    DaysFromCivilInverse(c);
  }

  /** The local time value built from valid fields is their day number and time within the day. */
  lemma ConstructLocalDay(c: Civil, hours: int, minutes: int, seconds: int, ms: int, offset: int)
    requires ValidCivil(c) && (c.year < 0 || c.year > 99)
    ensures ConstructLocal(c.year, c.month - 1, c.day, hours, minutes, seconds, ms, offset)
      == Utc(MakeDate(DaysFromCivil(c.year, c.month, c.day), MakeTime(hours, minutes, seconds, ms)), offset)
  {
    MakeDayInRange(c.year, c.month, c.day);
  }

  /** Reading back in local time a date made from a day and a time within the day. */
  lemma LocalOfUtc(d: int, w: int, offset: int)
    requires 0 <= w < MsPerDay
    ensures LocalTime(Utc(MakeDate(d, w), offset), offset) == MakeDate(d, w)
    ensures Day(MakeDate(d, w)) == d && TimeWithinDay(MakeDate(d, w)) == w
  {
    DayAndTime(d, w);
  }

  /** `setHours(hour)` on a time value: same local day, minutes, seconds and ms, the given hour. */
  function SetHoursTime(tv: TimeValue, hour: int, offset: int): TimeValue {
    match tv
    case None => None
    case Some(t) =>
      var l := LocalTime(t, offset);
      Some(Utc(MakeDate(Day(l), MakeTime(hour, MinFromTime(l), SecFromTime(l), MsFromTime(l))), offset))
  }

  /** `setDate(date)` on a time value: same local year, month and time of day, the given day of month. */
  function SetDateTime(tv: TimeValue, date: int, offset: int): TimeValue {
    match tv
    case None => None
    case Some(t) =>
      var l := LocalTime(t, offset);
      Some(Utc(MakeDate(MakeDay(YearFromTime(l), MonthFromTime(l), date), TimeWithinDay(l)), offset))
  }

  /** `setHours(hour)` moves the instant by the change of the local hour, in whole hours. */
  lemma SetHoursShifts(t: int, hour: int, offset: int)
    ensures SetHoursTime(Some(t), hour, offset) == Some(t + (hour - HourFromTime(LocalTime(t, offset))) * MsPerHour)
  {
    TimeParts(LocalTime(t, offset));
  }

  /** `setDate(getDate() + n)` moves the instant by exactly n days. */
  lemma SetDateBy(t: int, n: int, offset: int)
    ensures SetDateTime(Some(t), DateFromTime(LocalTime(t, offset)) + n, offset) == Some(t + n * MsPerDay)
  {
    SetDateShifts(t, DateFromTime(LocalTime(t, offset)) + n, offset);
  }

  /** `setHours(getHours() + n)` moves the instant by exactly n hours. */
  lemma SetHoursBy(t: int, n: int, offset: int)
    ensures SetHoursTime(Some(t), HourFromTime(LocalTime(t, offset)) + n, offset) == Some(t + n * MsPerHour)
  {
    SetHoursShifts(t, HourFromTime(LocalTime(t, offset)) + n, offset);
  }

  /** `setDate(date)` moves the instant by the change of the local day of month, in whole days. */
  lemma SetDateShifts(t: int, date: int, offset: int)
    ensures SetDateTime(Some(t), date, offset) == Some(t + (date - DateFromTime(LocalTime(t, offset))) * MsPerDay)
  {
    LocalDayShift(LocalTime(t, offset), date);
  }

  lemma LocalDayShift(l: int, date: int)
    ensures MakeDate(MakeDay(YearFromTime(l), MonthFromTime(l), date), TimeWithinDay(l))
      == l + (date - DateFromTime(l)) * MsPerDay
  {
    var n := date - DateFromTime(l);
    DayOfMonthShift(l, date);
    DayTimeSplit(l);
    assert MakeDate(Day(l) + n, TimeWithinDay(l)) == MakeDate(Day(l), TimeWithinDay(l)) + n * MsPerDay;
  }

  /** Changing the local day of month changes the day number by the same amount. */
  lemma DayOfMonthShift(l: int, date: int)
    ensures MakeDay(YearFromTime(l), MonthFromTime(l), date) == Day(l) + (date - DateFromTime(l))
  {
    var c := CivilFromDays(Day(l));
    assert YearFromTime(l) == c.year && MonthFromTime(l) == c.month - 1 && DateFromTime(l) == c.day;
    CivilDayShift(c, date);
  }

  /** Changing the day of month of a valid date changes its day number by the same amount. */
  lemma CivilDayShift(c: Civil, date: int)
    requires ValidCivil(c)
    ensures MakeDay(c.year, c.month - 1, date) == DaysFromCivil(c.year, c.month, c.day) + (date - c.day)
  {
    MakeDayInRange(c.year, c.month, date);
  }

  /** A JavaScript `Date` object. */
  class JsDate {
    var time: TimeValue

    /** `new Date(value)` given the time value it produces. */
    constructor (tv: TimeValue)
      ensures time == tv
    {
      time := tv;
    }

    /** `getHours()` in local time; `None` is NaN. */
    function GetHours(offset: int): (h: Option<int>)
      reads this
      ensures h.Some? <==> time.Some?
      ensures h.Some? ==> 0 <= h.value < 24
      ensures h.Some? ==> h.value * MsPerHour <= TimeWithinDay(LocalTime(time.value, offset)) < (h.value + 1) * MsPerHour
    {
      if time.Some? then (ClockBounds(LocalTime(time.value, offset)); Some(HourFromTime(LocalTime(time.value, offset)))) else None
    }

    /** `getDate()` in local time; `None` is NaN. */
    function GetDate(offset: int): (d: Option<int>)
      reads this
      ensures d.Some? <==> time.Some?
      ensures d.Some? ==> 1 <= d.value <= 31 && d.value == LocalCivil(time.value, offset).day
    {
      if time.Some? then Some(DateFromTime(LocalTime(time.value, offset))) else None
    }

    /** `getFullYear()` in local time; `None` is NaN. */
    function GetFullYear(offset: int): (y: Option<int>)
      reads this
      ensures y.Some? <==> time.Some?
      ensures y.Some? ==> y.value == LocalCivil(time.value, offset).year
    {
      if time.Some? then Some(YearFromTime(LocalTime(time.value, offset))) else None
    }

    /** `getMonth()` in local time, 0-based; `None` is NaN. */
    function GetMonth(offset: int): (m: Option<int>)
      reads this
      ensures m.Some? <==> time.Some?
      ensures m.Some? ==> 0 <= m.value < 12 && m.value == LocalCivil(time.value, offset).month - 1
    {
      if time.Some? then Some(MonthFromTime(LocalTime(time.value, offset))) else None
    }

    /** `getMinutes()` in local time; `None` is NaN. */
    function GetMinutes(offset: int): (m: Option<int>)
      reads this
      ensures m.Some? <==> time.Some?
      ensures m.Some? ==> 0 <= m.value < 60
      ensures m.Some? ==> m.value * MsPerMinute <= TimeWithinDay(LocalTime(time.value, offset)) % MsPerHour < (m.value + 1) * MsPerMinute
    {
      if time.Some? then (ClockBounds(LocalTime(time.value, offset)); Some(MinFromTime(LocalTime(time.value, offset)))) else None
    }

    /** `getSeconds()` in local time; `None` is NaN. */
    function GetSeconds(offset: int): (s: Option<int>)
      reads this
      ensures s.Some? <==> time.Some?
      ensures s.Some? ==> 0 <= s.value < 60
      ensures s.Some? ==> s.value * MsPerSecond <= TimeWithinDay(LocalTime(time.value, offset)) % MsPerMinute < (s.value + 1) * MsPerSecond
    {
      if time.Some? then (ClockBounds(LocalTime(time.value, offset)); Some(SecFromTime(LocalTime(time.value, offset)))) else None
    }

    /** `setHours(hour)`. */
    method SetHours(hour: int, offset: int)
      modifies this
      ensures time == SetHoursTime(old(time), hour, offset)
    {
      time := SetHoursTime(time, hour, offset);
    }

    /** `setDate(date)`. */
    method SetDate(date: int, offset: int)
      modifies this
      ensures time == SetDateTime(old(time), date, offset)
    {
      time := SetDateTime(time, date, offset);
    }
  }
}
