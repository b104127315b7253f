/**
 * `DateUtils.convertStringToDate`: a strict `DD/MM/YYYY - H:mm AM|PM` reader with a 12-hour clock,
 * falling back on the host parser for any other string.
 */
module DateParse {
  import opened Wrappers
  import opened TimeMath
  import opened Text
  import opened JsDates

  datatype Period = AM | PM

  function PeriodText(p: Period): string {
    match p
    case AM => "AM"
    case PM => "PM"
  }

  /** The capture groups of `/^(\d{2})\/(\d{2})\/(\d{4}) - (\d{1,2}):(\d{2}) (AM|PM)$/`. */
  datatype DateTimeMatch = DateTimeMatch(day: string, month: string, year: string, hour: string, minute: string, period: Period)

  /** Groups of the shapes the pattern admits. */
  predicate WellFormed(m: DateTimeMatch) {
    |m.day| == 2 && AllDigits(m.day) && |m.month| == 2 && AllDigits(m.month) &&
    |m.year| == 4 && AllDigits(m.year) && 1 <= |m.hour| <= 2 && AllDigits(m.hour) &&
    |m.minute| == 2 && AllDigits(m.minute)
  }

  /** The one string the groups match. */
  function Spelled(m: DateTimeMatch): string {
    m.day + "/" + m.month + "/" + m.year + " - " + m.hour + ":" + m.minute + " " + PeriodText(m.period)
  }

  /**
   * `s.match(pattern)`: the groups when `s` is the whole pattern; the length (20 or 21) says whether
   * the hour has one digit or two, since everything after it is of fixed length.
   */
  function MatchDateTime(s: string): Option<DateTimeMatch> {
    if |s| != 20 && |s| != 21 then None
    else
      var h := |s| - 19;
      var m := DateTimeMatch(s[0..2], s[3..5], s[6..10], s[13..13 + h], s[14 + h..16 + h],
                             if s[17 + h..] == "AM" then AM else PM);
      if s[2] == '/' && s[5] == '/' && s[10..13] == " - " && s[13 + h] == ':' && s[16 + h] == ' ' &&
         (s[17 + h..] == "AM" || s[17 + h..] == "PM") && WellFormed(m)
      then Some(m)
      else None
  }

  /** Every well-formed set of groups is matched by its spelling and read back unchanged. */
  lemma MatchSpelled(m: DateTimeMatch)
    requires WellFormed(m)
    ensures MatchDateTime(Spelled(m)) == Some(m)
  {
    var s := Spelled(m);
    var h := |m.hour|;
    assert |s| == 19 + h;
    assert s[0..2] == m.day && s[3..5] == m.month && s[6..10] == m.year;
    assert s[13..13 + h] == m.hour && s[14 + h..16 + h] == m.minute && s[17 + h..] == PeriodText(m.period);
  }

  /** A match is well formed and is exactly the spelling of its groups. */
  lemma MatchedSpelled(s: string)
    requires MatchDateTime(s).Some?
    ensures WellFormed(MatchDateTime(s).value) && Spelled(MatchDateTime(s).value) == s
  {
    var m := MatchDateTime(s).value;
    var h := |s| - 19;
    assert PeriodText(m.period) == s[17 + h..];
    assert s == s[0..2] + [s[2]] + s[3..5] + [s[5]] + s[6..10] + s[10..13] + s[13..13 + h] + [s[13 + h]]
      + s[14 + h..16 + h] + [s[16 + h]] + s[17 + h..];
  }

  /** Lines 200-204: the 12-hour clock read as a 24-hour one. */
  function To24Hour(hour: int, period: Period): int {
    if period == PM && hour != 12 then hour + 12
    else if period == AM && hour == 12 then 0
    else hour
  }

  /** For the hours of a 12-hour clock the result is an hour of the day, and no two readings collide. */
  lemma To24HourRange(hour: int, period: Period)
    requires 1 <= hour <= 12
    ensures 0 <= To24Hour(hour, period) < 24
    ensures period == AM ==> To24Hour(hour, period) < 12
    ensures period == PM ==> To24Hour(hour, period) >= 12
  {
  }

  lemma To24HourInjective(h1: int, p1: Period, h2: int, p2: Period)
    requires 1 <= h1 <= 12 && 1 <= h2 <= 12
    requires To24Hour(h1, p1) == To24Hour(h2, p2)
    ensures h1 == h2 && p1 == p2
  {
    To24HourRange(h1, p1);
    To24HourRange(h2, p2);
  }

  /** Line 207: `new Date(year, month - 1, day, hour, minute)` of the parsed groups. */
  function MatchedTime(m: DateTimeMatch, offset: int): int
    requires WellFormed(m)
  {
    ConstructLocal(DigitsValue(m.year), DigitsValue(m.month) - 1, DigitsValue(m.day),
      To24Hour(DigitsValue(m.hour), m.period), DigitsValue(m.minute), 0, 0, offset)
  }

  /**
   * `convertStringToDate({ dateString })`; the outer `None` is `null`. A string that does not match
   * is handed to the host parser and returned as it comes, even when invalid.
   */
  method ConvertStringToDate(dateString: string, host: Host) returns (r: Option<TimeValue>)
    ensures MatchDateTime(dateString).None? ==> r == Some(host.parse(dateString))
    ensures MatchDateTime(dateString).Some? ==> r == Some(Some(MatchedTime(MatchDateTime(dateString).value, host.offset)))
  {
    var matched := MatchDateTime(dateString);
    var date: TimeValue;
    if matched.None? {
      date := host.parse(dateString);
      return Some(date);
    } else {
      var m := matched.value;
      var parsedHour := DigitsValue(m.hour);
      var parsedMinute := DigitsValue(m.minute);
      var parsedDay := DigitsValue(m.day);
      var parsedMonth := DigitsValue(m.month) - 1;
      var parsedYear := DigitsValue(m.year);
      if m.period == PM && parsedHour != 12 {
        parsedHour := parsedHour + 12;
      } else if m.period == AM && parsedHour == 12 {
        parsedHour := 0;
      }
      date := Some(ConstructLocal(parsedYear, parsedMonth, parsedDay, parsedHour, parsedMinute, 0, 0, host.offset));
    }
    if date.None? {
      return None;
    }
    r := Some(date);
  }

  /**
   * For groups naming a real date and a 12-hour time (years 0..99 excepted, which the constructor
   * reads as 1900 + year), the result shows exactly that local date and the 24-hour time.
   */
  lemma MatchedFields(m: DateTimeMatch, offset: int)
    requires WellFormed(m)
    requires var c := Civil(DigitsValue(m.year), DigitsValue(m.month), DigitsValue(m.day));
      ValidCivil(c) && c.year > 99
    requires 1 <= DigitsValue(m.hour) <= 12 && DigitsValue(m.minute) < 60
    ensures var t := MatchedTime(m, offset);
      LocalCivil(t, offset) == Civil(DigitsValue(m.year), DigitsValue(m.month), DigitsValue(m.day)) &&
      HourFromTime(LocalTime(t, offset)) == To24Hour(DigitsValue(m.hour), m.period) &&
      MinFromTime(LocalTime(t, offset)) == DigitsValue(m.minute) &&
      SecFromTime(LocalTime(t, offset)) == 0
  {
    var c := Civil(DigitsValue(m.year), DigitsValue(m.month), DigitsValue(m.day));
    var h, mi := To24Hour(DigitsValue(m.hour), m.period), DigitsValue(m.minute);
    To24HourRange(DigitsValue(m.hour), m.period);
    ConstructLocalFields(c, h, mi, 0, 0, offset);
    TimeFields(LocalTime(MatchedTime(m, offset), offset), h, mi, 0, 0);
  }
}
