/**
 * The calendar helpers of `DateUtils`: the `HH:mm` validator, first and last days, the current
 * month, `isValid`, the resolution of a date argument, `diffHours`, `diffDays` and the four
 * add/subtract operations. The clock is the parameter `now`; the engine's string parser and
 * the local offset come in the `Host`.
 */
module DateUtils {
  import opened Wrappers
  import opened TimeMath
  import opened Text
  import Emptiness
  import opened JsDates

  // ---------------------------------------------------------------------------------------------
  // hourMinuteRegExp

  /** `hourMinuteRegExp`, `/^(?:[01]\d|2[0-3]):[0-5]\d$/`. */
  predicate HourMinute(s: string) {
    |s| == 5 && s[2] == ':' && IsDigit(s[1]) && IsDigit(s[4]) &&
    (s[0] == '0' || s[0] == '1' || (s[0] == '2' && '0' <= s[1] <= '3')) &&
    '0' <= s[3] <= '5'
  }

  /** Hours and minutes of an `HH:mm` string. */
  function HourOf(s: string): nat
    requires HourMinute(s)
  {
    DigitsValue(s[..2])
  }

  function MinuteOf(s: string): nat
    requires HourMinute(s)
  {
    DigitsValue(s[3..])
  }

  /** The pattern accepts exactly two digits worth at most 23, a colon and two digits worth at most 59. */
  lemma HourMinuteIff(s: string)
    ensures HourMinute(s) <==>
      |s| == 5 && s[2] == ':' && AllDigits(s[..2]) && AllDigits(s[3..]) &&
      DigitsValue(s[..2]) <= 23 && DigitsValue(s[3..]) <= 59
  {
    if |s| == 5 && AllDigits(s[..2]) && AllDigits(s[3..]) {
      assert s[..2][0] == s[0] && s[..2][1] == s[1];
      assert s[3..][0] == s[3] && s[3..][1] == s[4];
      TwoDigitsValue(s[..2]);
      TwoDigitsValue(s[3..]);
    }
    if HourMinute(s) {
      assert AllDigits(s[..2]) && AllDigits(s[3..]);
    }
  }

  // ---------------------------------------------------------------------------------------------
  // First and last days

  /** A valid local date at midnight reads back as itself. */
  lemma LocalMidnight(c: Civil, offset: int)
    requires ValidCivil(c)
    ensures var t := Utc(MakeDate(DaysFromCivil(c.year, c.month, c.day), 0), offset);
      LocalCivil(t, offset) == c && TimeWithinDay(LocalTime(t, offset)) == 0
  {
    LocalOfUtc(DaysFromCivil(c.year, c.month, c.day), 0, offset);
    DaysFromCivilInverse(c);
  }

  /** `getFirstDayOfYear({year})`: local midnight of January 1st (years 0..99 read as 1900 + year). */
  function GetFirstDayOfYear(year: int, offset: int): (t: int)
    ensures LocalCivil(t, offset) == Civil(MakeFullYear(year), 1, 1)
    ensures TimeWithinDay(LocalTime(t, offset)) == 0
  {
    MakeDayInRange(MakeFullYear(year), 1, 1);
    LocalMidnight(Civil(MakeFullYear(year), 1, 1), offset);
    ConstructLocal(year, 0, 1, 0, 0, 0, 0, offset)
  }

  /**
   * `getFirstDayOfMonth({month, year})`: local midnight of day 1 of that month; months outside
   * 1..12 roll over into the neighbouring years as `new Date` normalises them.
   */
  function GetFirstDayOfMonth(year: int, month: int, offset: int): (t: int)
    ensures LocalCivil(t, offset) == Civil(MakeFullYear(year) + (month - 1) / 12, (month - 1) % 12 + 1, 1)
    ensures 1 <= month <= 12 ==> LocalCivil(t, offset) == Civil(MakeFullYear(year), month, 1)
    ensures TimeWithinDay(LocalTime(t, offset)) == 0
  {
    FirstDayOfMonthCivil(year, month, offset);
    RolledMonth(month);
    ConstructLocal(year, month - 1, 1, 0, 0, 0, 0, offset)
  }

  lemma FirstDayOfMonthCivil(year: int, month: int, offset: int)
    ensures var t := ConstructLocal(year, month - 1, 1, 0, 0, 0, 0, offset);
      LocalCivil(t, offset) == Civil(MakeFullYear(year) + (month - 1) / 12, (month - 1) % 12 + 1, 1) &&
      TimeWithinDay(LocalTime(t, offset)) == 0
  {
    var y, m := MakeFullYear(year) + (month - 1) / 12, (month - 1) % 12 + 1;
    assert MakeDay(MakeFullYear(year), month - 1, 1) == DaysFromCivil(y, m, 1);
    ConstructedMidnight(year, month - 1, 1, Civil(y, m, 1), offset);
  }

  /** `new Date(year, month, date)` is local midnight of `MakeDay` on the full year. */
  lemma ConstructMidnight(year: int, month: int, date: int, offset: int)
    ensures ConstructLocal(year, month, date, 0, 0, 0, 0, offset)
      == Utc(MakeDate(MakeDay(MakeFullYear(year), month, date), 0), offset)
  {
  }

  /** A 1-based month in range is its own normal form. */
  lemma RolledMonth(month: int)
    ensures 1 <= month <= 12 ==> (month - 1) / 12 == 0 && (month - 1) % 12 + 1 == month
  {
    if 1 <= month <= 12 {
      DivMod(month - 1, 12, 0, month - 1);
    }
  }

  /**
   * `getLastDayOfMonth({month, year})` is `new Date(year, month, 0)`: day 0 of the next month,
   * i.e. the last day of month `month`, also for December and for overflowing months.
   */
  function GetLastDayOfMonth(year: int, month: int, offset: int): (t: int)
    ensures var y, m := MakeFullYear(year) + (month - 1) / 12, (month - 1) % 12 + 1;
      LocalCivil(t, offset) == Civil(y, m, DaysInMonth(y, m))
    ensures 1 <= month <= 12 ==>
      LocalCivil(t, offset) == Civil(MakeFullYear(year), month, DaysInMonth(MakeFullYear(year), month))
    ensures TimeWithinDay(LocalTime(t, offset)) == 0
  {
    LastDayOfMonthCivil(year, month, offset);
    RolledMonth(month);
    ConstructLocal(year, month, 0, 0, 0, 0, 0, offset)
  }

  lemma LastDayOfMonthCivil(year: int, month: int, offset: int)
    ensures var t := ConstructLocal(year, month, 0, 0, 0, 0, 0, offset);
      var y, m := MakeFullYear(year) + (month - 1) / 12, (month - 1) % 12 + 1;
      LocalCivil(t, offset) == Civil(y, m, DaysInMonth(y, m)) && TimeWithinDay(LocalTime(t, offset)) == 0
  {
    var y, m := MakeFullYear(year) + (month - 1) / 12, (month - 1) % 12 + 1;
    DayZero(MakeFullYear(year), month);
    ConstructedMidnight(year, month, 0, Civil(y, m, DaysInMonth(y, m)), offset);
  }

  /** February ends on the 29th in a leap year such as 2024 and on the 28th in 2023. */
  lemma LastDayOfFebruary(offset: int)
    ensures LocalCivil(GetLastDayOfMonth(2024, 2, offset), offset) == Civil(2024, 2, 29)
    ensures LocalCivil(GetLastDayOfMonth(2023, 2, offset), offset) == Civil(2023, 2, 28)
  {
    assert IsLeapYear(2024) && !IsLeapYear(2023);
  }

  /** A date constructed at midnight on the day number of a valid date shows that date. */
  lemma ConstructedMidnight(year: int, month: int, date: int, c: Civil, offset: int)
    requires ValidCivil(c) && MakeDay(MakeFullYear(year), month, date) == DaysFromCivil(c.year, c.month, c.day)
    ensures var t := ConstructLocal(year, month, date, 0, 0, 0, 0, offset);
      LocalCivil(t, offset) == c && TimeWithinDay(LocalTime(t, offset)) == 0
  {
    ConstructMidnight(year, month, date, offset);
    LocalMidnight(c, offset);
  }

  /** Day 0 of 0-based month `month` is the last day of 1-based month `month`, normalised. */
  lemma DayZero(year: int, month: int)
    ensures var y, m := year + (month - 1) / 12, (month - 1) % 12 + 1;
      MakeDay(year, month, 0) == DaysFromCivil(y, m, DaysInMonth(y, m))
  {
    var q, r := (month - 1) / 12, (month - 1) % 12;
    var y, m := year + q, r + 1;
    NextMonthStart(y, m);
    DayOfMonthLinear(y, m, DaysInMonth(y, m));
    if r == 11 {
      DivMod(month, 12, q + 1, 0);
      assert MakeDay(year, month, 0) == DaysFromCivil(y + 1, 1, 1) - 1;
    } else {
      DivMod(month, 12, q, r + 1);
      assert MakeDay(year, month, 0) == DaysFromCivil(y, m + 1, 1) - 1;
    }
  }

  /** The day of month adds linearly to the day number. */
  lemma DayOfMonthLinear(y: int, m: int, d: int)
    requires 1 <= m <= 12
    ensures DaysFromCivil(y, m, d) == DaysFromCivil(y, m, 1) + d - 1
  {
  }

  /** `getActualMonth()`: the local month of the clock reading, 1-based. */
  function GetActualMonth(now: int, offset: int): (m: int)
    ensures 1 <= m <= 12
    ensures m == LocalCivil(now, offset).month
  {
    MonthFromTime(LocalTime(now, offset)) + 1
  }

  /** `isValid(value)`: a `Date` whose time value is not NaN, i.e. exactly the `Date`s `hasValue` accepts. */
  function IsValid(v: Emptiness.JsValue): (r: bool)
    ensures r <==> v.DateObj? && Emptiness.HasValue(v)
  {
    v.DateObj? && v.time.Some?
  }

  // ---------------------------------------------------------------------------------------------
  // Date arguments

  /**
   * A `string | Date` argument that may be omitted. A `Date` is passed as its time value: the
   * utilities only read it (they copy it before changing anything).
   */
  datatype DateArg = Omitted | StringArg(s: string) | DateValue(tv: TimeValue)

  /** An omitted argument means the current instant (`if (date == undefined) date = new Date()`). */
  function OrNow(a: DateArg, now: int): DateArg {
    if a.Omitted? then DateValue(Some(now)) else a
  }

  /** `new Date('1970-01-01T' + s + ':00')`: a date-time string without offset is local time. */
  function AnchorTime(s: string, offset: int): int
    requires HourMinute(s)
  {
    ConstructLocal(1970, 0, 1, HourOf(s), MinuteOf(s), 0, 0, offset)
  }

  /** An anchored `HH:mm` is that clock time on 1970-01-01, local time. */
  lemma AnchorFields(s: string, offset: int)
    requires HourMinute(s)
    ensures var l := LocalTime(AnchorTime(s, offset), offset);
      LocalCivil(AnchorTime(s, offset), offset) == Civil(1970, 1, 1) &&
      HourFromTime(l) == HourOf(s) && MinFromTime(l) == MinuteOf(s) && SecFromTime(l) == 0 && MsFromTime(l) == 0
  {
    HourMinuteIff(s);
    ConstructLocalFields(Civil(1970, 1, 1), HourOf(s), MinuteOf(s), 0, 0, offset);
    TimeFields(LocalTime(AnchorTime(s, offset), offset), HourOf(s), MinuteOf(s), 0, 0);
  }

  /**
   * The instant a `string | Date` argument stands for: a string is given to the host parser and,
   * when that fails, read as `HH:mm` on 1970-01-01; `None` when neither works or the `Date` is invalid.
   */
  function Resolve(a: DateArg, host: Host): (tv: TimeValue)
    ensures a.Omitted? ==> tv.None?
    ensures a.DateValue? ==> tv == a.tv
    ensures a.StringArg? ==> (tv.Some? <==> host.parse(a.s).Some? || HourMinute(a.s))
    ensures a.StringArg? && host.parse(a.s).Some? ==> tv == host.parse(a.s)
    ensures a.StringArg? && host.parse(a.s).None? && HourMinute(a.s) ==> tv == Some(AnchorTime(a.s, host.offset))
  {
    match a
    case Omitted => None
    case DateValue(tv) => tv
    case StringArg(s) =>
      if host.parse(s).Some? then host.parse(s)
      else if HourMinute(s) then Some(AnchorTime(s, host.offset))
      else None
  }

  /** `new Date(x)` for an argument: a string is parsed, a `Date` copied, `undefined` gives NaN. */
  function NewDate(a: DateArg, host: Host): TimeValue {
    match a
    case Omitted => None
    case StringArg(s) => host.parse(s)
    case DateValue(tv) => tv
  }

  // ---------------------------------------------------------------------------------------------
  // diffHours

  /** Hours from `t1` to `t2`, as the exact quotient of their millisecond difference. */
  function HoursBetween(t1: int, t2: int): (h: real)
    ensures h * 3600000.0 == (t2 - t1) as real
  {
    (t2 - t1) as real / 3600000.0
  }

  /** What `diffHours(time1, time2)` returns; `None` is `undefined`. */
  function DiffHoursOf(time1: DateArg, time2: DateArg, now: int, host: Host): (r: Option<real>)
    ensures r.Some? <==> Resolve(time1, host).Some? && Resolve(OrNow(time2, now), host).Some?
    ensures r.Some? ==>
      (r.value * 3600000.0 == (Resolve(OrNow(time2, now), host).value - Resolve(time1, host).value) as real)
  {
    var a, b := Resolve(time1, host), Resolve(OrNow(time2, now), host);
    if a.Some? && b.Some? then Some(HoursBetween(a.value, b.value)) else None
  }

  /** `diffHours(time1, time2)`, reassigning its arguments as the code does. */
  method DiffHours(time1: DateArg, time2: DateArg, now: int, host: Host) returns (r: Option<real>)
    ensures r == DiffHoursOf(time1, time2, now, host)
  {
    var t1, t2 := time1, time2;
    if t2.Omitted? {
      t2 := DateValue(Some(now));
    }
    if t1.StringArg? || t2.StringArg? {
      if NewDate(t1, host).Some? {
        t1 := DateValue(NewDate(t1, host));
      }
      if NewDate(t2, host).Some? {
        t2 := DateValue(NewDate(t2, host));
      }
      var match1 := t1.StringArg? && HourMinute(t1.s);
      var match2 := t2.StringArg? && HourMinute(t2.s);
      if t1.StringArg? && match1 {
        t1 := DateValue(Some(AnchorTime(t1.s, host.offset)));
      }
      if t2.StringArg? && match2 {
        t2 := DateValue(Some(AnchorTime(t2.s, host.offset)));
      }
    }
    if t1.DateValue? && t1.tv.Some? && t2.DateValue? && t2.tv.Some? {
      r := Some(HoursBetween(t1.tv.value, t2.tv.value));
    } else {
      r := None;
    }
  }

  /** Swapping two given arguments negates `diffHours`. */
  lemma DiffHoursSwap(time1: DateArg, time2: DateArg, now: int, host: Host)
    requires !time1.Omitted? && !time2.Omitted?
    ensures DiffHoursOf(time2, time1, now, host).Some? == DiffHoursOf(time1, time2, now, host).Some?
    ensures DiffHoursOf(time1, time2, now, host).Some? ==>
      DiffHoursOf(time2, time1, now, host).value == -DiffHoursOf(time1, time2, now, host).value
  {
    var r := DiffHoursOf(time1, time2, now, host);
    var s := DiffHoursOf(time2, time1, now, host);
    if r.Some? {
      assert r.value * 3600000.0 == -(s.value * 3600000.0);
    }
  }

  /**
   * Two `HH:mm` strings the host parser rejects differ by their clock times, in hours, whatever
   * the local offset.
   */
  lemma DiffHoursClock(s1: string, s2: string, now: int, host: Host)
    requires HourMinute(s1) && HourMinute(s2)
    requires host.parse(s1).None? && host.parse(s2).None?
    ensures DiffHoursOf(StringArg(s1), StringArg(s2), now, host) ==
      Some(((HourOf(s2) * 60 + MinuteOf(s2)) - (HourOf(s1) * 60 + MinuteOf(s1))) as real / 60.0)
  {
    var d := AnchorTime(s2, host.offset) - AnchorTime(s1, host.offset);
    var minutes := (HourOf(s2) * 60 + MinuteOf(s2)) - (HourOf(s1) * 60 + MinuteOf(s1));
    assert d == minutes * 60000;
    assert HoursBetween(AnchorTime(s1, host.offset), AnchorTime(s2, host.offset)) * 3600000.0 == (minutes * 60000) as real;
  }

  /** The example in `diffHours`'s doc comment: `diffHours('03:12', '15:30')` is 12.3 hours when the host rejects both strings. */
  lemma DiffHoursExample(now: int, host: Host)
    requires host.parse("03:12").None? && host.parse("15:30").None?
    ensures DiffHoursOf(StringArg("03:12"), StringArg("15:30"), now, host) == Some(12.3)
  {
    assert HourMinute("03:12") && HourMinute("15:30");
    assert "03:12"[..2] == "03" && "03:12"[3..] == "12" && "15:30"[..2] == "15" && "15:30"[3..] == "30";
    TwoDigitsValue("03");
    TwoDigitsValue("12");
    TwoDigitsValue("15");
    TwoDigitsValue("30");
    DiffHoursClock("03:12", "15:30", now, host);
  }

  // ---------------------------------------------------------------------------------------------
  // diffDays

  /** `new Date(d.getFullYear(), d.getMonth(), d.getDate(), 1, 0, 0, 0)`: 1 AM local of the same day. */
  function Normalized(t: int, offset: int): int {
    var l := LocalTime(t, offset);
    ConstructLocal(YearFromTime(l), MonthFromTime(l), DateFromTime(l), 1, 0, 0, 0, offset)
  }

  /** `diffDays(fecha1, fecha2)`: whole days between the two normalised dates; `None` is NaN. */
  function DiffDays(fecha1: TimeValue, fecha2: TimeValue, offset: int): (r: Option<int>)
    ensures r.Some? <==> fecha1.Some? && fecha2.Some?
    ensures r.Some? ==> r.value >= 0
  {
    if fecha1.None? || fecha2.None? then None
    else Some(WholeDays(Normalized(fecha1.value, offset), Normalized(fecha2.value, offset)))
  }

  /** `Math.floor((fechaMayor - fechaMenor) / 86400000)`, the later instant taken first. */
  function WholeDays(n1: int, n2: int): (r: int)
    ensures r >= 0
  {
    var mayor := if n1 > n2 then n1 else n2;
    var menor := if n1 > n2 then n2 else n1;
    (mayor - menor) / MsPerDay
  }

  /** `diffDays` does not depend on the order of its arguments. */
  lemma DiffDaysSymmetric(fecha1: TimeValue, fecha2: TimeValue, offset: int)
    ensures DiffDays(fecha1, fecha2, offset) == DiffDays(fecha2, fecha1, offset)
  {
    if fecha1.Some? && fecha2.Some? {
      WholeDaysSymmetric(Normalized(fecha1.value, offset), Normalized(fecha2.value, offset));
    }
  }

  lemma WholeDaysSymmetric(n1: int, n2: int)
    ensures WholeDays(n1, n2) == WholeDays(n2, n1)
  {
  }

  /** Two instants on the same local day are 0 days apart, whatever their times. */
  lemma DiffDaysSameDay(t1: int, t2: int, offset: int)
    requires Day(LocalTime(t1, offset)) == Day(LocalTime(t2, offset))
    ensures DiffDays(Some(t1), Some(t2), offset) == Some(0)
  {
  }

  /** Outside years 0..99 normalising keeps the local day number and sets 1 AM. */
  lemma NormalizedDay(t: int, offset: int)
    requires YearFromTime(LocalTime(t, offset)) < 0 || YearFromTime(LocalTime(t, offset)) > 99
    ensures Normalized(t, offset) == Utc(MakeDate(Day(LocalTime(t, offset)), MsPerHour), offset)
  {
    DayOfMonthShift(LocalTime(t, offset), DateFromTime(LocalTime(t, offset)));
  }

  /** Outside years 0..99, `diffDays` is the distance between the two local day numbers. */
  lemma DiffDaysCount(t1: int, t2: int, offset: int)
    requires YearFromTime(LocalTime(t1, offset)) < 0 || YearFromTime(LocalTime(t1, offset)) > 99
    requires YearFromTime(LocalTime(t2, offset)) < 0 || YearFromTime(LocalTime(t2, offset)) > 99
    ensures var d1, d2 := Day(LocalTime(t1, offset)), Day(LocalTime(t2, offset));
      DiffDays(Some(t1), Some(t2), offset) == Some(if d1 > d2 then d1 - d2 else d2 - d1)
  {
    var d1, d2 := Day(LocalTime(t1, offset)), Day(LocalTime(t2, offset));
    NormalizedDay(t1, offset);
    NormalizedDay(t2, offset);
    DayDistance(d1, d2, offset);
    assert DiffDays(Some(t1), Some(t2), offset) == Some(WholeDays(Normalized(t1, offset), Normalized(t2, offset)));
  }

  /** Two 1 AM instants are a whole number of days apart: the distance of their day numbers. */
  lemma DayDistance(d1: int, d2: int, offset: int)
    ensures WholeDays(Utc(MakeDate(d1, MsPerHour), offset), Utc(MakeDate(d2, MsPerHour), offset))
      == if d1 > d2 then d1 - d2 else d2 - d1
  {
    var k := if d1 > d2 then d1 - d2 else d2 - d1;
    DivMod(k * MsPerDay, MsPerDay, k, 0);
  }

  /**
   * The example in `diffDays`'s doc comment: `new Date('2024-01-01')` and `new Date('2024-03-01')` (date-only ISO
   * strings are UTC midnight) are 60 days apart under any offset of less than a day.
   */
  lemma DiffDaysExample(offset: int)
    requires -MsPerDay < offset < MsPerDay
    ensures DiffDays(Some(MakeDate(DaysFromCivil(2024, 1, 1), 0)), Some(MakeDate(DaysFromCivil(2024, 3, 1), 0)), offset)
      == Some(60)
  {
    DayNumbers2024();
    if offset >= 0 {
      ExampleDays(offset, 0, Civil(2024, 1, 1), Civil(2024, 3, 1));
    } else {
      ExampleDays(offset, 1, Civil(2023, 12, 31), Civil(2024, 2, 29));
    }
  }

  /** The example's instants fall on the local dates `c1` and `c2`, `back` days before their UTC dates. */
  lemma ExampleDays(offset: int, back: int, c1: Civil, c2: Civil)
    requires ValidCivil(c1) && ValidCivil(c2) && c1.year > 99 && c2.year > 99
    requires DaysFromCivil(c1.year, c1.month, c1.day) == 19723 - back
    requires DaysFromCivil(c2.year, c2.month, c2.day) == 19783 - back
    requires back == 0 || back == 1
    requires 0 <= offset + back * MsPerDay < MsPerDay
    ensures DiffDays(Some(MakeDate(19723, 0)), Some(MakeDate(19783, 0)), offset) == Some(60)
  {
    LocalDayOf(19723, c1, offset, back);
    LocalDayOf(19783, c2, offset, back);
    DiffDaysCount(MakeDate(19723, 0), MakeDate(19783, 0), offset);
  }

  /** The day numbers of the dates around the example. */
  lemma DayNumbers2024()
    ensures DaysFromCivil(2024, 1, 1) == 19723 && DaysFromCivil(2024, 3, 1) == 19783
    ensures DaysFromCivil(2023, 12, 31) == 19722 && DaysFromCivil(2024, 2, 29) == 19782
  {
    assert MarchYearStart(2023) == 5 * 146097 + YearStartInEra(23);
    assert MarchYearStart(2024) == 5 * 146097 + YearStartInEra(24);
  }

  /** UTC midnight of day `z` falls, under an offset of less than a day, on day `z - back` of valid date `c`. */
  lemma LocalDayOf(z: int, c: Civil, offset: int, back: int)
    requires ValidCivil(c) && DaysFromCivil(c.year, c.month, c.day) == z - back
    requires back == 0 || back == 1
    requires 0 <= offset + back * MsPerDay < MsPerDay
    ensures Day(LocalTime(MakeDate(z, 0), offset)) == z - back
    ensures YearFromTime(LocalTime(MakeDate(z, 0), offset)) == c.year
  {
    var w := if back == 0 then offset else offset + MsPerDay;
    assert LocalTime(MakeDate(z, 0), offset) == MakeDate(z - back, w);
    DayAndTime(z - back, w);
    YearOfDay(LocalTime(MakeDate(z, 0), offset), c);
  }

  /** A time value on the day number of a valid date is in that date's year. */
  lemma YearOfDay(t: int, c: Civil)
    requires ValidCivil(c) && Day(t) == DaysFromCivil(c.year, c.month, c.day)
    ensures YearFromTime(t) == c.year
  {
    DaysFromCivilInverse(c);
  }

  // ---------------------------------------------------------------------------------------------
  // A discrepancy of diffDays: years 0..99

  /**
   * Normalising with `new Date(y, m, d, 1, 0, 0, 0)` reads a local year 50 as 1950, so a date in
   * year 50 and the same date in 1950 come out 0 days apart although 693960 days separate them.
   */
  lemma DiffDaysEarlyYears(offset: int)
    ensures var t1 := Utc(MakeDate(DaysFromCivil(50, 6, 1), 0), offset);
      var t2 := Utc(MakeDate(DaysFromCivil(1950, 6, 1), 0), offset);
      DiffDays(Some(t1), Some(t2), offset) == Some(0) &&
      Day(LocalTime(t2, offset)) - Day(LocalTime(t1, offset)) == 693960
  {
    EarlyYearsCountZero(offset);
    EarlyYearsApart(offset);
  }

  lemma EarlyYearsCountZero(offset: int)
    ensures var t1 := Utc(MakeDate(DaysFromCivil(50, 6, 1), 0), offset);
      var t2 := Utc(MakeDate(DaysFromCivil(1950, 6, 1), 0), offset);
      DiffDays(Some(t1), Some(t2), offset) == Some(0)
  {
    EarlyYearsNormalizeAlike(offset);
  }

  lemma EarlyYearsApart(offset: int)
    ensures var t1 := Utc(MakeDate(DaysFromCivil(50, 6, 1), 0), offset);
      var t2 := Utc(MakeDate(DaysFromCivil(1950, 6, 1), 0), offset);
      Day(LocalTime(t2, offset)) - Day(LocalTime(t1, offset)) == 693960
  {
    LocalOfUtc(DaysFromCivil(50, 6, 1), 0, offset);
    LocalOfUtc(DaysFromCivil(1950, 6, 1), 0, offset);
    CenturiesApart();
  }

  /** 50-06-01 and 1950-06-01 are normalised to the same instant. */
  lemma EarlyYearsNormalizeAlike(offset: int)
    ensures Normalized(Utc(MakeDate(DaysFromCivil(50, 6, 1), 0), offset), offset)
      == Normalized(Utc(MakeDate(DaysFromCivil(1950, 6, 1), 0), offset), offset)
  {
    MidnightNormalized(Civil(50, 6, 1), offset);
    MidnightNormalized(Civil(1950, 6, 1), offset);
    assert MakeFullYear(50) == 1950;
  }

  /** 693960 days lie between 50-06-01 and 1950-06-01. */
  lemma CenturiesApart()
    ensures DaysFromCivil(1950, 6, 1) - DaysFromCivil(50, 6, 1) == 693960
  {
    assert MarchYearStart(1950) == 4 * 146097 + YearStartInEra(350);
    assert MarchYearStart(50) == YearStartInEra(50);
  }

  /** The normalisation `diffDays` applies to a local midnight is `new Date(y, m - 1, d, 1, 0, 0, 0)` of its own fields. */
  lemma MidnightNormalized(c: Civil, offset: int)
    requires ValidCivil(c)
    ensures Normalized(Utc(MakeDate(DaysFromCivil(c.year, c.month, c.day), 0), offset), offset)
      == ConstructLocal(c.year, c.month - 1, c.day, 1, 0, 0, 0, offset)
  {
    LocalMidnight(c, offset);
  }

  /**
   * The intended normalisation: 1 AM of the same local calendar date, the year taken as it is
   * (what `setFullYear(y, m, d)` followed by `setHours(1, 0, 0, 0)` gives).
   */
  function NormalizedFullYear(t: int, offset: int): int {
    var l := LocalTime(t, offset);
    Utc(MakeDate(MakeDay(YearFromTime(l), MonthFromTime(l), DateFromTime(l)), MakeTime(1, 0, 0, 0)), offset)
  }

  /** `diffDays` with the intended normalisation. */
  function DiffDaysFullYear(fecha1: TimeValue, fecha2: TimeValue, offset: int): (r: Option<int>)
    ensures r.Some? <==> fecha1.Some? && fecha2.Some?
  {
    if fecha1.None? || fecha2.None? then None
    else Some(WholeDays(NormalizedFullYear(fecha1.value, offset), NormalizedFullYear(fecha2.value, offset)))
  }

  /** With the intended normalisation the count is the distance of the local day numbers, for every year. */
  lemma DiffDaysFullYearCount(t1: int, t2: int, offset: int)
    ensures var d1, d2 := Day(LocalTime(t1, offset)), Day(LocalTime(t2, offset));
      DiffDaysFullYear(Some(t1), Some(t2), offset) == Some(if d1 > d2 then d1 - d2 else d2 - d1)
  {
    DayOfMonthShift(LocalTime(t1, offset), DateFromTime(LocalTime(t1, offset)));
    DayOfMonthShift(LocalTime(t2, offset), DateFromTime(LocalTime(t2, offset)));
    DayDistance(Day(LocalTime(t1, offset)), Day(LocalTime(t2, offset)), offset);
  }

  /** Outside years 0..99 `diffDays` as written and the intended one agree. */
  lemma DiffDaysAgree(t1: int, t2: int, offset: int)
    requires YearFromTime(LocalTime(t1, offset)) < 0 || YearFromTime(LocalTime(t1, offset)) > 99
    requires YearFromTime(LocalTime(t2, offset)) < 0 || YearFromTime(LocalTime(t2, offset)) > 99
    ensures DiffDays(Some(t1), Some(t2), offset) == DiffDaysFullYear(Some(t1), Some(t2), offset)
  {
    DiffDaysCount(t1, t2, offset);
    DiffDaysFullYearCount(t1, t2, offset);
  }

  // ---------------------------------------------------------------------------------------------
  // addHours, subtractHours, addDays, subtractDays

  /**
   * The first lines of each shifting operation: an omitted date becomes now, a string is parsed by the host
   * or else read as `HH:mm` on 1970-01-01.
   */
  method ResolveDate(date: DateArg, now: int, host: Host) returns (d: DateArg)
    ensures d.DateValue? && d.tv.Some? <==> Resolve(OrNow(date, now), host).Some?
    ensures d.DateValue? && d.tv.Some? ==> d.tv == Resolve(OrNow(date, now), host)
  {
    d := date;
    if d.Omitted? {
      d := DateValue(Some(now));
    }
    if d.StringArg? {
      if NewDate(d, host).Some? {
        d := DateValue(NewDate(d, host));
      }
      var match1 := d.StringArg? && HourMinute(d.s);
      if d.StringArg? && match1 {
        d := DateValue(Some(AnchorTime(d.s, host.offset)));
      }
    }
  }

  /**
   * The instant the four shifting operations return: the resolved date (an omitted one being
   * now) moved by `delta` ms, or now when the argument does not resolve to a valid instant.
   */
  function Shifted(date: DateArg, delta: int, now: int, host: Host): int {
    var tv := Resolve(OrNow(date, now), host);
    if tv.Some? then tv.value + delta else now
  }

  /**
   * Shifting the result back by what it was shifted forward gives the resolved date again (or, when
   * the argument did not resolve, the first clock reading moved back), whatever the second clock reads.
   */
  lemma ShiftedRoundTrip(date: DateArg, delta: int, now1: int, now2: int, host: Host)
    ensures var back := Shifted(DateValue(Some(Shifted(date, delta, now1, host))), -delta, now2, host);
      var tv := Resolve(OrNow(date, now1), host);
      (tv.Some? ==> back == tv.value) && (tv.None? ==> back == now1 - delta)
  {
  }

  /** A string the host rejects and that is not `HH:mm` makes every shift return now. */
  lemma ShiftedUnresolvable(s: string, delta: int, now: int, host: Host)
    requires host.parse(s).None? && !HourMinute(s)
    ensures Shifted(StringArg(s), delta, now, host) == now
  {
  }

  /** `const d = new Date(t); d.setHours(d.getHours() + n)`: a new date exactly n hours later. */
  method HoursLater(t: int, n: int, offset: int) returns (r: JsDate)
    ensures fresh(r)
    ensures r.time == Some(t + n * MsPerHour)
  {
    r := new JsDate(Some(t));
    var hours := r.GetHours(offset);
    SetHoursBy(t, n, offset);
    r.SetHours(hours.value + n, offset);
  }

  /** `const d = new Date(t); d.setDate(d.getDate() + n)`: a new date exactly n days later. */
  method DaysLater(t: int, n: int, offset: int) returns (r: JsDate)
    ensures fresh(r)
    ensures r.time == Some(t + n * MsPerDay)
  {
    r := new JsDate(Some(t));
    var day := r.GetDate(offset);
    SetDateBy(t, n, offset);
    r.SetDate(day.value + n, offset);
  }

  /** `addHours(n, date)`: a new `Date` exactly `n` hours after the resolved date, or now. */
  method AddHours(hoursToAdd: int, date: DateArg, now: int, host: Host) returns (r: JsDate)
    ensures fresh(r)
    ensures r.time == Some(Shifted(date, hoursToAdd * MsPerHour, now, host))
  {
    var d := ResolveDate(date, now, host);
    if d.DateValue? && d.tv.Some? {
      r := HoursLater(d.tv.value, hoursToAdd, host.offset);
    } else {
      r := new JsDate(Some(now));
    }
  }

  /** `subtractHours(n, date)`: a new `Date` exactly `n` hours before the resolved date, or now. */
  method SubtractHours(hoursToSubtract: int, date: DateArg, now: int, host: Host) returns (r: JsDate)
    ensures fresh(r)
    ensures r.time == Some(Shifted(date, -hoursToSubtract * MsPerHour, now, host))
  {
    var d := ResolveDate(date, now, host);
    if d.DateValue? && d.tv.Some? {
      r := HoursLater(d.tv.value, -hoursToSubtract, host.offset);
    } else {
      r := new JsDate(Some(now));
    }
  }

  /** `addDays(n, date)`: a new `Date` exactly `n` days after the resolved date, or now. */
  method AddDays(daysToAdd: int, date: DateArg, now: int, host: Host) returns (r: JsDate)
    ensures fresh(r)
    ensures r.time == Some(Shifted(date, daysToAdd * MsPerDay, now, host))
  {
    var d := ResolveDate(date, now, host);
    if d.DateValue? && d.tv.Some? {
      r := DaysLater(d.tv.value, daysToAdd, host.offset);
    } else {
      r := new JsDate(Some(now));
    }
  }

  /** `subtractDays(n, date)`: a new `Date` exactly `n` days before the resolved date, or now. */
  method SubtractDays(daysToSubtract: int, date: DateArg, now: int, host: Host) returns (r: JsDate)
    ensures fresh(r)
    ensures r.time == Some(Shifted(date, -daysToSubtract * MsPerDay, now, host))
  {
    var d := ResolveDate(date, now, host);
    if d.DateValue? && d.tv.Some? {
      r := DaysLater(d.tv.value, -daysToSubtract, host.offset);
    } else {
      r := new JsDate(Some(now));
    }
  }
}
