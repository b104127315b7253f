/**
 * Time-value arithmetic of the host `Date` primitive, after section 21.4.1 of ECMA-262
 * ("Time Values and Time Range"): a time value is an integer number of milliseconds since
 * 1970-01-01T00:00:00Z, days are 86400000 ms long, and the calendar is the proleptic Gregorian one.
 * Local time is UTC plus a fixed offset (no daylight saving).
 *
 * The civil-date conversion is done on "March years" (a year that starts on March 1st, so that the
 * leap day is the last day of the year) grouped in eras of 400 years = 146097 days.
 */
module TimeMath {

  const MsPerSecond: int := 1000
  const MsPerMinute: int := 60000
  const MsPerHour: int := 3600000
  const MsPerDay: int := 86400000

  /** A calendar date; `month` is 1-based. */
  datatype Civil = Civil(year: int, month: int, day: int)

  predicate IsLeapYear(y: int) {
    y % 4 == 0 && (y % 100 != 0 || y % 400 == 0)
  }

  function DaysInMonth(y: int, m: int): (n: int)
    requires 1 <= m <= 12
    ensures 28 <= n <= 31
  {
    if m == 2 then (if IsLeapYear(y) then 29 else 28)
    else if m == 4 || m == 6 || m == 9 || m == 11 then 30
    else 31
  }

  predicate ValidCivil(c: Civil) {
    1 <= c.month <= 12 && 1 <= c.day <= DaysInMonth(c.year, c.month)
  }

  // ---------------------------------------------------------------------------------------------
  // March years and eras

  /** Day (0-based) of the March year on which March-based month `mp` (0 = March … 11 = February) starts. */
  function MarchMonthStart(mp: int): int {
    (153 * mp + 2) / 5
  }

  /** Day (0-based) of the era on which March year `yoe` of the era starts. */
  function YearStartInEra(yoe: int): int {
    365 * yoe + yoe / 4 - yoe / 100
  }

  /** Length of March year `yoe`: it ends with the February of civil year `yoe + 1`. */
  function MarchYearLength(yoe: int): int {
    if IsLeapYear(yoe + 1) then 366 else 365
  }

  /** Days before March year `p` (any integer), counted from March 1st of year 0. */
  function MarchYearStart(p: int): int {
    p / 400 * 146097 + YearStartInEra(p % 400)
  }

  /** The day number (days since 1970-01-01) of a date; linear in `d`, so days past the month's end overflow. */
  function DaysFromCivil(y: int, m: int, d: int): int
    requires 1 <= m <= 12
  {
    var yp := if m <= 2 then y - 1 else y;
    var mp := if m > 2 then m - 3 else m + 9;
    MarchYearStart(yp) + MarchMonthStart(mp) + d - 1 - 719468
  }

  lemma YearStartDecomposition(c: int, q: int, r: int)
    requires 0 <= c < 4 && 0 <= q < 25 && 0 <= r < 4
    ensures YearStartInEra(100 * c + 4 * q + r) == 36524 * c + 1461 * q + 365 * r
  {
    var k := 100 * c + 4 * q + r;
    assert k / 4 == 25 * c + q;
    assert k / 100 == c;
  }

  /** Within an era, March year 100c + 4q + 3 is long exactly when its century is not cut short. */
  lemma LeapMarchYear(c: int, q: int, r: int)
    requires 0 <= c < 4 && 0 <= q < 25 && 0 <= r < 4
    ensures IsLeapYear(100 * c + 4 * q + r + 1) <==> r == 3 && (q < 24 || c == 3)
  {
    var y := 100 * c + 4 * q + r + 1;
    assert y % 4 == (r + 1) % 4;
    if r == 3 {
      assert y == 100 * c + 4 * (q + 1);
      if q < 24 {
        assert y % 100 != 0;
      } else {
        assert y == 100 * (c + 1);
        assert y % 400 == 0 <==> c == 3;
      }
    }
  }

  /** Century of an era (0..3) holding day `doe`; the last century has one day more. */
  function CenturyOf(doe: int): int {
    if doe / 36524 < 3 then doe / 36524 else 3
  }

  /** Year (0..3) of a four-year block holding day `doq`; the last year may have one day more. */
  function YearOfBlock(doq: int): int {
    if doq / 365 < 3 then doq / 365 else 3
  }

  /** Splits a day of an era into the March year of the era and the day within that year. */
  function SplitEra(doe: int): (r: (int, int))
    requires 0 <= doe < 146097
    ensures 0 <= r.0 < 400 && 0 <= r.1 < MarchYearLength(r.0)
    ensures YearStartInEra(r.0) + r.1 == doe
  {
    var cen := CenturyOf(doe);
    var doc := doe - 36524 * cen;
    var q := doc / 1461;
    var doq := doc % 1461;
    var yoq := YearOfBlock(doq);
    YearStartDecomposition(cen, q, yoq);
    LeapMarchYear(cen, q, yoq);
    (100 * cen + 4 * q + yoq, doq - 365 * yoq)
  }

  /** SplitEra inverts YearStartInEra: a March year and a day inside it are recovered. */
  lemma SplitEraUnique(yoe: int, doy: int)
    requires 0 <= yoe < 400 && 0 <= doy < MarchYearLength(yoe)
    ensures SplitEra(YearStartInEra(yoe) + doy) == (yoe, doy)
  {
    var c, q, r := DecomposeYearOfEra(yoe);
    YearStartDecomposition(c, q, r);
    LeapMarchYear(c, q, r);
    var doq := 365 * r + doy;
    var rest := 1461 * q + doq;
    var doe := 36524 * c + rest;
    assert doe == YearStartInEra(yoe) + doy;
    CenturyOfParts(doe, c, rest);
    DivMod(rest, 1461, q, doq);
    YearOfBlockParts(doq, r, doy);
  }

  lemma CenturyOfParts(doe: int, c: int, rest: int)
    requires 0 <= c < 4 && 0 <= rest <= 36524 && (rest == 36524 ==> c == 3)
    requires doe == 36524 * c + rest
    ensures CenturyOf(doe) == c
  {
    if rest < 36524 {
      DivMod(doe, 36524, c, rest);
    } else {
      DivMod(doe, 36524, 4, 0);
    }
  }

  lemma YearOfBlockParts(doq: int, r: int, doy: int)
    requires 0 <= r < 4 && 0 <= doy <= 365 && (doy == 365 ==> r == 3)
    requires doq == 365 * r + doy
    ensures YearOfBlock(doq) == r
  {
    if doy < 365 {
      DivMod(doq, 365, r, doy);
    } else {
      DivMod(doq, 365, 4, 0);
    }
  }

  /** A March year of an era as century, four-year block and year within the block. */
  lemma DecomposeYearOfEra(yoe: int) returns (c: int, q: int, r: int)
    requires 0 <= yoe < 400
    ensures 0 <= c < 4 && 0 <= q < 25 && 0 <= r < 4 && yoe == 100 * c + 4 * q + r
  {
    c := yoe / 100;
    q := yoe % 100 / 4;
    r := yoe % 100 % 4;
  }

  /** Quotient and remainder are determined by any representation `n == q * d + r` with `0 <= r < d`. */
  lemma DivMod(n: int, d: int, q: int, r: int)
    requires 0 < d && 0 <= r < d && n == q * d + r
    ensures n / d == q && n % d == r
  {
    if n / d > q {
      MulMonotone(q + 1, n / d, d);
    } else if n / d < q {
      MulMonotone(n / d + 1, q, d);
    }
  }

  lemma MulMonotone(a: int, b: int, d: int)
    requires a <= b && 0 < d
    ensures a * d <= b * d
  {
  }

  /** Month of the March year that contains day `doy` (0 = March … 11 = February). */
  function MarchMonthOf(doy: int): (mp: int)
    requires 0 <= doy < 367
    ensures 0 <= mp < 12
    ensures MarchMonthStart(mp) <= doy < MarchMonthStart(mp + 1)
  {
    var mp := (5 * doy + 2) / 153;
    assert 153 * mp <= 5 * doy + 2 < 153 * mp + 153;
    mp
  }

  lemma MarchMonthStartMonotone(a: int, b: int)
    requires a <= b
    ensures MarchMonthStart(a) <= MarchMonthStart(b)
  {
  }

  lemma MarchMonthOfUnique(mp: int, doy: int)
    requires 0 <= mp < 12 && MarchMonthStart(mp) <= doy < MarchMonthStart(mp + 1)
    ensures 0 <= doy < 367 && MarchMonthOf(doy) == mp
  {
    MarchMonthStartMonotone(0, mp);
    MarchMonthStartMonotone(mp + 1, 12);
    var k := MarchMonthOf(doy);
    if k < mp {
      MarchMonthStartMonotone(k + 1, mp);
    } else if k > mp {
      MarchMonthStartMonotone(mp + 1, k);
    }
  }

  /** The March-based months other than February have the civil lengths. */
  lemma MarchMonthLength(m: int, y: int)
    requires 1 <= m <= 12 && m != 2
    ensures var mp := if m > 2 then m - 3 else m + 9;
      MarchMonthStart(mp) + DaysInMonth(y, m) == MarchMonthStart(mp + 1)
  {
  }

  /** February is what is left of the March year after its first eleven months. */
  lemma FebruaryLength(yp: int)
    ensures MarchMonthStart(11) == 337
    ensures 337 + DaysInMonth(yp + 1, 2) == MarchYearLength(yp % 400)
  {
    LeapPeriodic(yp + 1);
  }

  /** Leap years repeat every 400 years. */
  lemma LeapPeriodic(y: int)
    ensures IsLeapYear(y) <==> IsLeapYear((y - 1) % 400 + 1)
  {
    var e, k := (y - 1) / 400, (y - 1) % 400;
    var j := k + 1;
    DivMod(y, 4, 100 * e + j / 4, j % 4);
    DivMod(y, 100, 4 * e + j / 100, j % 100);
    DivMod(y, 400, e + j / 400, j % 400);
  }

  /** Consecutive March years: each starts where the previous one, of length 365 or 366, ends. */
  lemma MarchYearStep(p: int)
    ensures MarchYearStart(p + 1) == MarchYearStart(p) + MarchYearLength(p % 400)
  {
    var e, k := p / 400, p % 400;
    if k < 399 {
      DivMod(p + 1, 400, e, k + 1);
      var y := k + 1;
      assert y / 4 - k / 4 == if y % 4 == 0 then 1 else 0;
      assert y / 100 - k / 100 == if y % 100 == 0 then 1 else 0;
    } else {
      DivMod(p + 1, 400, e + 1, 0);
    }
  }

  // ---------------------------------------------------------------------------------------------
  // Civil dates and day numbers

  /** The civil date of day number `z` (days since 1970-01-01). */
  function CivilFromDays(z: int): (c: Civil)
    ensures ValidCivil(c)
    ensures DaysFromCivil(c.year, c.month, c.day) == z
  {
    CivilInEra((z + 719468) / 146097, (z + 719468) % 146097)
  }

  /** The civil date of day `doe` of era `era` (eras start on March 1st of years divisible by 400). */
  function CivilInEra(era: int, doe: int): (c: Civil)
    requires 0 <= doe < 146097
    ensures ValidCivil(c)
    ensures DaysFromCivil(c.year, c.month, c.day) == era * 146097 + doe - 719468
  {
    var split := SplitEra(doe);
    var yoe, doy := split.0, split.1;
    var mp := MarchMonthOf(doy);
    var m := if mp < 10 then mp + 3 else mp - 9;
    var c := Civil(era * 400 + yoe + (if m <= 2 then 1 else 0), m, doy - MarchMonthStart(mp) + 1);
    CivilFromDaysCorrect(era, yoe, doy, mp, c);
    c
  }

  lemma CivilFromDaysCorrect(era: int, yoe: int, doy: int, mp: int, c: Civil)
    requires 0 <= yoe < 400 && 0 <= doy < MarchYearLength(yoe)
    requires 0 <= mp < 12 && MarchMonthStart(mp) <= doy < MarchMonthStart(mp + 1)
    requires c.month == (if mp < 10 then mp + 3 else mp - 9)
    requires c.year == era * 400 + yoe + (if c.month <= 2 then 1 else 0)
    requires c.day == doy - MarchMonthStart(mp) + 1
    ensures ValidCivil(c)
    ensures DaysFromCivil(c.year, c.month, c.day) == era * 146097 + YearStartInEra(yoe) + doy - 719468
  {
    var yp := era * 400 + yoe;
    DivMod(yp, 400, era, yoe);
    assert MarchYearStart(yp) == era * 146097 + YearStartInEra(yoe);
    if c.month == 2 {
      FebruaryLength(yp);
      assert yp % 400 == yoe;
    } else {
      MarchMonthLength(c.month, c.year);
    }
  }

  /** Day numbers of valid dates convert back to the same date. */
  lemma DaysFromCivilInverse(c: Civil)
    requires ValidCivil(c)
    ensures CivilFromDays(DaysFromCivil(c.year, c.month, c.day)) == c
  {
    var yp := if c.month <= 2 then c.year - 1 else c.year;
    var mp := if c.month > 2 then c.month - 3 else c.month + 9;
    var era, yoe := yp / 400, yp % 400;
    var doy := MarchMonthStart(mp) + c.day - 1;
    if c.month == 2 {
      FebruaryLength(yp);
    } else {
      MarchMonthLength(c.month, c.year);
      MarchMonthStartMonotone(mp + 1, 12);
      MarchYearLengthBounds(yoe);
    }
    var z := DaysFromCivil(c.year, c.month, c.day);
    assert z == era * 146097 + YearStartInEra(yoe) + doy - 719468;
    CivilFromEraParts(z, era, yoe, doy, mp);
  }

  /** CivilFromDays on a day given by its era, March year of the era and day of that year. */
  lemma CivilFromEraParts(z: int, era: int, yoe: int, doy: int, mp: int)
    requires 0 <= yoe < 400 && 0 <= doy < MarchYearLength(yoe)
    requires z == era * 146097 + YearStartInEra(yoe) + doy - 719468
    requires 0 <= mp < 12 && MarchMonthStart(mp) <= doy < MarchMonthStart(mp + 1)
    ensures var m := if mp < 10 then mp + 3 else mp - 9;
      CivilFromDays(z) == Civil(era * 400 + yoe + (if m <= 2 then 1 else 0), m, doy - MarchMonthStart(mp) + 1)
  {
    SplitEraUnique(yoe, doy);
    YearStartBound(yoe);
    var doe := YearStartInEra(yoe) + doy;
    DivMod(z + 719468, 146097, era, doe);
    assert CivilFromDays(z) == CivilInEra(era, doe);
    MarchMonthOfUnique(mp, doy);
  }

  lemma MarchYearLengthBounds(yoe: int)
    ensures 365 <= MarchYearLength(yoe) <= 366
  {
  }

  /** The last March year of an era ends on the era's last day. */
  lemma YearStartBound(yoe: int)
    requires 0 <= yoe < 400
    ensures 0 <= YearStartInEra(yoe) && YearStartInEra(yoe) + MarchYearLength(yoe) <= 146097
  {
    var c, q, r := DecomposeYearOfEra(yoe);
    YearStartDecomposition(c, q, r);
    LeapMarchYear(c, q, r);
  }

  /** The first day of each month follows the last day of the previous one. */
  lemma NextMonthStart(y: int, m: int)
    requires 1 <= m <= 12
    ensures DaysFromCivil(y, m, 1) + DaysInMonth(y, m)
      == if m == 12 then DaysFromCivil(y + 1, 1, 1) else DaysFromCivil(y, m + 1, 1)
  {
    if m == 2 {
      FebruaryLength(y - 1);
      MarchYearStep(y - 1);
    } else {
      MarchMonthLength(m, y);
    }
  }

  /** Day number of January 1st of year `y`, by the closed formula of ECMA-262 (DayFromYear). */
  function DayFromYear(y: int): int {
    365 * (y - 1970) + (y - 1969) / 4 - (y - 1901) / 100 + (y - 1601) / 400
  }

  /** The era-based conversion agrees with ECMA-262's DayFromYear on every year. */
  lemma DayFromYearAgrees(y: int)
    ensures DaysFromCivil(y, 1, 1) == DayFromYear(y)
  {
    var e, k := (y - 1) / 400, (y - 1) % 400;
    DivMod(y - 1969, 4, 100 * e - 492 + k / 4, k % 4);
    DivMod(y - 1901, 100, 4 * e - 19 + k / 100, k % 100);
    DivMod(y - 1601, 400, e - 4, k);
  }

  /** A year has 366 days exactly when it is a Gregorian leap year (ECMA-262 DaysInYear). */
  lemma YearLength(y: int)
    ensures DaysFromCivil(y + 1, 1, 1) - DaysFromCivil(y, 1, 1) == if IsLeapYear(y) then 366 else 365
  {
    MarchYearStep(y - 1);
    LeapPeriodic(y);
  }

  // ---------------------------------------------------------------------------------------------
  // Time values (section 21.4.1 of ECMA-262, with integer arguments)

  function Day(t: int): int {
    t / MsPerDay
  }

  function TimeWithinDay(t: int): (w: int)
    ensures 0 <= w < MsPerDay
  {
    t % MsPerDay
  }

  function HourFromTime(t: int): (h: int)
    ensures 0 <= h < 24
  {
    t / MsPerHour % 24
  }

  function MinFromTime(t: int): (m: int)
    ensures 0 <= m < 60
  {
    t / MsPerMinute % 60
  }

  function SecFromTime(t: int): (s: int)
    ensures 0 <= s < 60
  {
    t / MsPerSecond % 60
  }

  function MsFromTime(t: int): (ms: int)
    ensures 0 <= ms < 1000
  {
    t % MsPerSecond
  }

  function MakeTime(hour: int, min: int, sec: int, ms: int): int {
    hour * MsPerHour + min * MsPerMinute + sec * MsPerSecond + ms
  }

  /** Day number of day `date` (1-based, may overflow) of month `month` (0-based, may overflow) of `year`. */
  function MakeDay(year: int, month: int, date: int): int {
    DaysFromCivil(year + month / 12, month % 12 + 1, 1) + date - 1
  }

  function MakeDate(day: int, time: int): int {
    day * MsPerDay + time
  }

  /** Local time under a fixed offset (ms east of UTC); daylight saving is not modelled. */
  function LocalTime(t: int, offset: int): int {
    t + offset
  }

  function Utc(t: int, offset: int): int {
    t - offset
  }

  function YearFromTime(t: int): int {
    CivilFromDays(Day(t)).year
  }

  /** 0-based month, as `getMonth` returns it. */
  function MonthFromTime(t: int): (m: int)
    ensures 0 <= m < 12
  {
    CivilFromDays(Day(t)).month - 1
  }

  function DateFromTime(t: int): (d: int)
    ensures 1 <= d <= 31
  {
    CivilFromDays(Day(t)).day
  }

  /** The local hour, minute and second place a time value within its day, its hour and its minute. */
  lemma ClockBounds(t: int)
    ensures HourFromTime(t) * MsPerHour <= TimeWithinDay(t) < (HourFromTime(t) + 1) * MsPerHour
    ensures MinFromTime(t) * MsPerMinute <= TimeWithinDay(t) % MsPerHour < (MinFromTime(t) + 1) * MsPerMinute
    ensures SecFromTime(t) * MsPerSecond <= TimeWithinDay(t) % MsPerMinute < (SecFromTime(t) + 1) * MsPerSecond
  {
    var h, mi, s, ms := HourFromTime(t), MinFromTime(t), SecFromTime(t), MsFromTime(t);
    TimeParts(t);
    DivMod(TimeWithinDay(t), MsPerHour, h, mi * MsPerMinute + s * MsPerSecond + ms);
    DivMod(TimeWithinDay(t), MsPerMinute, h * 60 + mi, s * MsPerSecond + ms);
  }

  /** A day number and a time within that day are recovered from their time value. */
  lemma DayAndTime(day: int, time: int)
    requires 0 <= time < MsPerDay
    ensures Day(MakeDate(day, time)) == day && TimeWithinDay(MakeDate(day, time)) == time
  {
    DivMod(MakeDate(day, time), MsPerDay, day, time);
  }

  /** Every time value is its day number's midnight plus its time within the day. */
  lemma DayTimeSplit(t: int)
    ensures t == MakeDate(Day(t), TimeWithinDay(t))
  {
  }

  /** Every time value is its day plus its hours, minutes, seconds and milliseconds. */
  lemma TimeParts(t: int)
    ensures TimeWithinDay(t) == MakeTime(HourFromTime(t), MinFromTime(t), SecFromTime(t), MsFromTime(t))
    ensures t == MakeDate(Day(t), TimeWithinDay(t))
  {
    var a := t / 1000;
    var b := a / 60;
    var h := b / 60;
    DivMod(t, 60000, b, 1000 * (a % 60) + t % 1000);
    DivMod(t, 3600000, h, 60000 * (b % 60) + 1000 * (a % 60) + t % 1000);
    DivMod(t, 86400000, h / 24, 3600000 * (h % 24) + 60000 * (b % 60) + 1000 * (a % 60) + t % 1000);
  }

  /** A time within the day made of in-range fields shows those fields again. */
  lemma TimeFields(t: int, h: int, mi: int, s: int, ms: int)
    requires 0 <= h < 24 && 0 <= mi < 60 && 0 <= s < 60 && 0 <= ms < 1000
    requires TimeWithinDay(t) == MakeTime(h, mi, s, ms)
    ensures HourFromTime(t) == h && MinFromTime(t) == mi && SecFromTime(t) == s && MsFromTime(t) == ms
  {
    var d := Day(t);
    DivMod(t, 1000, d * 86400 + h * 3600 + mi * 60 + s, ms);
    DivMod(d * 86400 + h * 3600 + mi * 60 + s, 60, d * 1440 + h * 60 + mi, s);
    DivMod(t, 60000, d * 1440 + h * 60 + mi, s * 1000 + ms);
    DivMod(d * 1440 + h * 60 + mi, 60, d * 24 + h, mi);
    DivMod(t, 3600000, d * 24 + h, mi * 60000 + s * 1000 + ms);
    DivMod(d * 24 + h, 24, d, h);
  }

  /** MakeDay on an in-range 0-based month is DaysFromCivil on the 1-based one, whatever the day. */
  lemma MakeDayInRange(y: int, m: int, d: int)
    requires 1 <= m <= 12
    ensures MakeDay(y, m - 1, d) == DaysFromCivil(y, m, d)
  {
    DivMod(m - 1, 12, 0, m - 1);
  }
}
