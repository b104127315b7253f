/**
 * `DateUtils.format`: option defaults resolved in the caller's options object, then a date
 * template and a time template filled by first-occurrence replacement of their tokens.
 */
module DateFormat {
  import opened Wrappers
  import opened TimeMath
  import opened Text
  import opened JsDates
  import Emptiness
  import opened DateUtils

  const DefaultDateFormat: string := "DD/MM/YYYY"
  const DefaultHourFormat: string := "HH:mm"
  const DefaultSeparator: string := " - "

  /** The options object `{ date, dateFormat, include_hour, only_hour, hourFormat, separator }`; `None` is an absent property. */
  class FormatParams {
    var date: DateArg
    var dateFormat: Option<string>
    var includeHour: Option<bool>
    var onlyHour: Option<bool>
    var hourFormat: Option<string>
    var separator: Option<string>

    /** `{}`: every property absent. */
    constructor ()
      ensures date == Omitted && dateFormat == None && includeHour == None
      ensures onlyHour == None && hourFormat == None && separator == None
    {
      date := Omitted;
      dateFormat := None;
      includeHour := None;
      onlyHour := None;
      hourFormat := None;
      separator := None;
    }
  }

  /** The JavaScript value of a `date` property. */
  function DateJs(a: DateArg): Emptiness.JsValue {
    match a
    case Omitted => Emptiness.Undefined
    case StringArg(s) => Emptiness.Str(s)
    case DateValue(tv) => Emptiness.DateObj(tv)
  }

  /** The JavaScript value of an optional boolean property. */
  function BoolJs(b: Option<bool>): Emptiness.JsValue {
    if b.Some? then Emptiness.Bool(b.value) else Emptiness.Undefined
  }

  /** The JavaScript value of an optional string property. */
  function StrJs(s: Option<string>): Emptiness.JsValue {
    if s.Some? then Emptiness.Str(s.value) else Emptiness.Undefined
  }

  /**
   * The instant `format` renders: a non-blank string is parsed first, and whatever is then empty
   * (absent, blank, unparseable or an invalid `Date`) is replaced by now.
   */
  function FormatInstant(date: DateArg, now: int, host: Host): (t: int)
    ensures date.DateValue? && date.tv.Some? ==> t == date.tv.value
    ensures date.StringArg? && !Emptiness.AllWhiteSpace(date.s) && host.parse(date.s).Some? ==> t == host.parse(date.s).value
    ensures date.StringArg? && (Emptiness.AllWhiteSpace(date.s) || host.parse(date.s).None?) ==> t == now
    ensures date.Omitted? || (date.DateValue? && date.tv.None?) ==> t == now
  {
    var parsed := if Emptiness.HasValue(DateJs(date)) && date.StringArg? then DateValue(host.parse(date.s)) else date;
    if parsed.DateValue? && parsed.tv.Some? then parsed.tv.value else now
  }

  /** `only_hour` after line 134: an absent value becomes false. */
  function OnlyHourOption(onlyHour: Option<bool>): bool {
    onlyHour.GetOr(false)
  }

  /**
   * `include_hour` after line 135: an absent value becomes `only_hour || hasValue(hourFormat)`,
   * where a blank `hourFormat` does not count.
   */
  function IncludeHourOption(includeHour: Option<bool>, onlyHour: Option<bool>, hourFormat: Option<string>): (r: bool)
    ensures includeHour.Some? ==> r == includeHour.value
    ensures includeHour.None? ==>
      (r <==> OnlyHourOption(onlyHour) || (hourFormat.Some? && !Emptiness.AllWhiteSpace(hourFormat.value)))
  {
    if Emptiness.IsEmpty(BoolJs(includeHour)) then
      (Emptiness.HasValue(BoolJs(Some(OnlyHourOption(onlyHour)))) && OnlyHourOption(onlyHour)) || Emptiness.HasValue(StrJs(hourFormat))
    else includeHour.value
  }

  /** `separator` after line 136: an absent value becomes `' - '`. */
  function SeparatorOption(separator: Option<string>): string {
    separator.GetOr(DefaultSeparator)
  }

  /** Lines 148-151: the date template with `DD`, `MM` and `YYYY` replaced, each at its first occurrence only. */
  function FillDate(template: string, day: string, month: string, year: string): string {
    ReplaceFirst(ReplaceFirst(ReplaceFirst(template, "DD", day), "MM", month), "YYYY", year)
  }

  /** Lines 155-158: the time template with `HH`, `mm` and `ss` replaced, each at its first occurrence only. */
  function FillTime(template: string, hours: string, minutes: string, seconds: string): string {
    ReplaceFirst(ReplaceFirst(ReplaceFirst(template, "HH", hours), "mm", minutes), "ss", seconds)
  }

  /** The rendered fields of a date (lines 139-144): day, month, hours, minutes, seconds padded to two digits. */
  datatype Fields = Fields(day: string, month: string, year: string, hours: string, minutes: string, seconds: string)

  /** All but the year are two decimal digits. */
  predicate Padded(f: Fields) {
    |f.day| == 2 && AllDigits(f.day) && |f.month| == 2 && AllDigits(f.month) &&
    |f.hours| == 2 && AllDigits(f.hours) && |f.minutes| == 2 && AllDigits(f.minutes) &&
    |f.seconds| == 2 && AllDigits(f.seconds)
  }

  /** The fields of local time `l`; the month counted from 1. */
  function LocalFields(l: int): (f: Fields)
    ensures Padded(f)
  {
    Fields(Padded2(DateFromTime(l)), Padded2(MonthFromTime(l) + 1), IntToString(YearFromTime(l)),
      Padded2(HourFromTime(l)), Padded2(MinFromTime(l)), Padded2(SecFromTime(l)))
  }

  /** The fields show the local calendar date of the instant: 1-based month, unpadded year. */
  lemma LocalFieldsCivil(t: int, offset: int)
    ensures var f, c := LocalFields(LocalTime(t, offset)), LocalCivil(t, offset);
      f.day == Padded2(c.day) && f.month == Padded2(c.month) && f.year == IntToString(c.year)
  {
  }

  /** The date template filled with the fields. */
  function DatePart(template: string, f: Fields): string {
    FillDate(template, f.day, f.month, f.year)
  }

  /** The time template filled with the fields. */
  function TimePart(template: string, f: Fields): string {
    FillTime(template, f.hours, f.minutes, f.seconds)
  }

  /** Lines 146-161 once every option is resolved: the date part, then the separator and the time part. */
  function Render(f: Fields, dateFormat: Option<string>, includeHour: bool, onlyHour: bool,
                  hourFormat: Option<string>, separator: string): string
  {
    var datePart := if onlyHour then "" else DatePart(dateFormat.GetOr(DefaultDateFormat), f);
    if includeHour then
      datePart + (if |datePart| > 0 then separator else "") + TimePart(hourFormat.GetOr(DefaultHourFormat), f)
    else datePart
  }

  /** `format(params)` on the options as the caller passed them. */
  function FormatOf(date: DateArg, dateFormat: Option<string>, includeHour: Option<bool>, onlyHour: Option<bool>,
                    hourFormat: Option<string>, separator: Option<string>, now: int, host: Host): string
  {
    Render(LocalFields(LocalTime(FormatInstant(date, now, host), host.offset)), dateFormat,
      IncludeHourOption(includeHour, onlyHour, hourFormat), OnlyHourOption(onlyHour), hourFormat, SeparatorOption(separator))
  }

  /** Lines 131-132: a non-blank string `date` is parsed, then an empty `date` becomes now. */
  method ResolveFormatDate(p: FormatParams, now: int, host: Host)
    modifies p
    ensures p.date == DateValue(Some(FormatInstant(old(p.date), now, host)))
    ensures p.dateFormat == old(p.dateFormat) && p.hourFormat == old(p.hourFormat) && p.separator == old(p.separator)
    ensures p.onlyHour == old(p.onlyHour) && p.includeHour == old(p.includeHour)
  {
    if Emptiness.HasValue(DateJs(p.date)) && p.date.StringArg? {
      p.date := DateValue(host.parse(p.date.s));
    }
    if Emptiness.IsEmpty(DateJs(p.date)) {
      p.date := DateValue(Some(now));
    }
  }

  /** Lines 134-136: `only_hour`, `include_hour` and `separator` get their defaults. */
  method FillOptionDefaults(p: FormatParams)
    modifies p
    ensures p.onlyHour == Some(OnlyHourOption(old(p.onlyHour)))
    ensures p.includeHour == Some(IncludeHourOption(old(p.includeHour), old(p.onlyHour), old(p.hourFormat)))
    ensures p.separator == Some(SeparatorOption(old(p.separator)))
    ensures p.date == old(p.date) && p.dateFormat == old(p.dateFormat) && p.hourFormat == old(p.hourFormat)
  {
    if Emptiness.IsEmpty(BoolJs(p.onlyHour)) {
      p.onlyHour := Some(p.onlyHour.GetOr(false));
    }
    if Emptiness.IsEmpty(BoolJs(p.includeHour)) {
      p.includeHour := Some((Emptiness.HasValue(BoolJs(p.onlyHour)) && p.onlyHour.value) || Emptiness.HasValue(StrJs(p.hourFormat)));
    }
    if p.separator == None {
      p.separator := Some(DefaultSeparator);
    }
  }

  /** Lines 139-144: the local fields of a valid `Date` as strings, padded to two digits but for the year. */
  method FieldStrings(date: JsDate, offset: int) returns (day: string, month: string, year: int,
                                                      hours: string, minutes: string, seconds: string)
    requires date.time.Some?
    ensures Fields(day, month, IntToString(year), hours, minutes, seconds) == LocalFields(LocalTime(date.time.value, offset))
  {
    day := Padded2(date.GetDate(offset).value);
    month := Padded2(date.GetMonth(offset).value + 1);
    year := date.GetFullYear(offset).value;
    hours := Padded2(date.GetHours(offset).value);
    minutes := Padded2(date.GetMinutes(offset).value);
    seconds := Padded2(date.GetSeconds(offset).value);
  }

  /** Lines 138-163: the fields of the resolved date put into the templates. */
  method Compose(p: FormatParams, offset: int) returns (fecha: string)
    requires p.date.DateValue? && p.date.tv.Some?
    requires p.onlyHour.Some? && p.includeHour.Some? && p.separator.Some?
    ensures fecha == Render(LocalFields(LocalTime(p.date.tv.value, offset)), p.dateFormat, p.includeHour.value,
      p.onlyHour.value, p.hourFormat, p.separator.value)
  {
    var date := new JsDate(p.date.tv);
    var day, month, year, hours, minutes, seconds := FieldStrings(date, offset);
    fecha := "";
    if !p.onlyHour.value {
      fecha := FillDate(p.dateFormat.GetOr(DefaultDateFormat), day, month, IntToString(year));
    }
    if p.includeHour.value {
      var formattedTime := FillTime(p.hourFormat.GetOr(DefaultHourFormat), hours, minutes, seconds);
      fecha := fecha + (if |fecha| > 0 then p.separator.value else "") + formattedTime;
    }
  }

  /**
   * `DateUtils.format(params)`. The options object is the caller's and is updated in place as the
   * code does: `date` becomes the rendered instant and the three defaults are filled in.
   */
  method Format(params: FormatParams?, now: int, host: Host) returns (fecha: string)
    modifies params
    ensures params == null ==> fecha == FormatOf(Omitted, None, None, None, None, None, now, host)
    ensures params != null ==> fecha == FormatOf(old(params.date), old(params.dateFormat), old(params.includeHour),
      old(params.onlyHour), old(params.hourFormat), old(params.separator), now, host)
    ensures params != null ==> params.date == DateValue(Some(FormatInstant(old(params.date), now, host)))
    ensures params != null ==> params.onlyHour == Some(OnlyHourOption(old(params.onlyHour)))
    ensures params != null ==> (params.includeHour ==
      Some(IncludeHourOption(old(params.includeHour), old(params.onlyHour), old(params.hourFormat))))
    ensures params != null ==> params.separator == Some(SeparatorOption(old(params.separator)))
    ensures params != null ==> params.dateFormat == old(params.dateFormat) && params.hourFormat == old(params.hourFormat)
  {
    var p := params;
    if p == null {
      p := new FormatParams();
    }
    ResolveFormatDate(p, now, host);
    FillOptionDefaults(p);
    fecha := Compose(p, host.offset);
  }

  // ---------------------------------------------------------------------------------------------
  // Templates

  /** A string in which the first character of `pat` does not occur is left alone by `replace(pat, _)`. */
  lemma ReplaceMissing(s: string, pat: string, rep: string)
    requires |pat| > 0 && pat[0] !in s
    ensures ReplaceFirst(s, pat, rep) == s
  {
    forall j | 0 <= j
      ensures !OccursAt(s, pat, j)
    {
      if j + |pat| <= |s| {
        assert s[j..j + |pat|][0] == s[j];
      }
    }
    ReplaceAbsent(s, pat, rep);
  }

  /** `replace(pat, rep)` substitutes the first `pat` after a prefix in which `pat` cannot start. */
  lemma ReplaceAfter(prefix: string, pat: string, rest: string, rep: string)
    requires |pat| > 0 && pat[0] !in prefix
    ensures ReplaceFirst(prefix + pat + rest, pat, rep) == prefix + rep + rest
  {
    var s := prefix + pat + rest;
    forall j | 0 <= j < |prefix|
      ensures !OccursAt(s, pat, j)
    {
      if j + |pat| <= |s| {
        assert s[j..j + |pat|][0] == s[j] == prefix[j];
      }
    }
    assert s[|prefix|..|prefix| + |pat|] == pat;
    ReplaceAt(s, pat, rep, |prefix|);
    assert s[..|prefix|] == prefix && s[|prefix| + |pat|..] == rest;
  }

  /** No character other than a digit occurs in a string of digits. */
  lemma NotInDigits(d: string, c: char)
    requires AllDigits(d) && !IsDigit(c)
    ensures c !in d
  {
  }

  /** `DD` of the default template. */
  lemma DefaultDay(day: string)
    ensures ReplaceFirst(DefaultDateFormat, "DD", day) == day + "/MM/YYYY"
  {
    assert DefaultDateFormat == "" + "DD" + "/MM/YYYY";
    ReplaceAfter("", "DD", "/MM/YYYY", day);
  }

  /** `MM` of the default template, once `DD` is replaced by digits. */
  lemma DefaultMonth(day: string, month: string)
    requires AllDigits(day)
    ensures ReplaceFirst(day + "/MM/YYYY", "MM", month) == day + "/" + month + "/YYYY"
  {
    NotInDigits(day, 'M');
    assert day + "/MM/YYYY" == (day + "/") + "MM" + "/YYYY";
    ReplaceAfter(day + "/", "MM", "/YYYY", month);
  }

  /** `YYYY` of the default template, once `DD` and `MM` are replaced by digits. */
  lemma DefaultYear(day: string, month: string, year: string)
    requires AllDigits(day) && AllDigits(month)
    ensures ReplaceFirst(day + "/" + month + "/YYYY", "YYYY", year) == day + "/" + month + "/" + year
  {
    NotInDigits(day, 'Y');
    NotInDigits(month, 'Y');
    var prefix := day + "/" + month + "/";
    assert 'Y' !in prefix;
    assert day + "/" + month + "/YYYY" == prefix + "YYYY" + "";
    ReplaceAfter(prefix, "YYYY", "", year);
  }

  /** The default date template gives `DD/MM/YYYY` for digit strings as day and month. */
  lemma FillDefaultDate(day: string, month: string, year: string)
    requires AllDigits(day) && AllDigits(month)
    ensures FillDate(DefaultDateFormat, day, month, year) == day + "/" + month + "/" + year
  {
    DefaultDay(day);
    DefaultMonth(day, month);
    DefaultYear(day, month, year);
  }

  /** The default time template gives `HH:mm` for digit strings as hours and minutes. */
  lemma FillDefaultTime(hours: string, minutes: string, seconds: string)
    requires AllDigits(hours) && AllDigits(minutes)
    ensures FillTime(DefaultHourFormat, hours, minutes, seconds) == hours + ":" + minutes
  {
    assert DefaultHourFormat == "" + "HH" + ":mm";
    ReplaceAfter("", "HH", ":mm", hours);
    assert "" + hours + ":mm" == (hours + ":") + "mm" + "";
    NotInDigits(hours, 'm');
    ReplaceAfter(hours + ":", "mm", "", minutes);
    assert (hours + ":") + minutes + "" == hours + ":" + minutes;
    NotInDigits(hours, 's');
    NotInDigits(minutes, 's');
    assert 's' !in hours + ":" + minutes;
    ReplaceMissing(hours + ":" + minutes, "ss", seconds);
  }

  /** Tokens are case-sensitive: a lowercase template is left as it is. */
  lemma LowercaseDateTemplate(day: string, month: string, year: string)
    ensures FillDate("dd/mm/yyyy", day, month, year) == "dd/mm/yyyy"
  {
    ReplaceMissing("dd/mm/yyyy", "DD", day);
    ReplaceMissing("dd/mm/yyyy", "MM", month);
    ReplaceMissing("dd/mm/yyyy", "YYYY", year);
  }

  /** Only the first occurrence of a token is replaced. */
  lemma FirstOccurrenceOnly(day: string, month: string, year: string)
    requires AllDigits(day)
    ensures FillDate("DD-DD", day, month, year) == day + "-DD"
  {
    assert "DD-DD" == "" + "DD" + "-DD";
    ReplaceAfter("", "DD", "-DD", day);
    assert "" + day + "-DD" == day + "-DD";
    NotInDigits(day, 'M');
    NotInDigits(day, 'Y');
    assert 'M' !in day + "-DD" && 'Y' !in day + "-DD";
    ReplaceMissing(day + "-DD", "MM", month);
    ReplaceMissing(day + "-DD", "YYYY", year);
  }

  /** A token missing from the template leaves its field out: `MM/YYYY` shows no day. */
  lemma MissingTokenLeftOut(day: string, month: string, year: string)
    requires AllDigits(month)
    ensures FillDate("MM/YYYY", day, month, year) == month + "/" + year
  {
    ReplaceMissing("MM/YYYY", "DD", day);
    MonthFirst(month);
    YearAfterMonth(month, year);
  }

  /** `MM` at the start of `MM/YYYY`. */
  lemma MonthFirst(month: string)
    ensures ReplaceFirst("MM/YYYY", "MM", month) == month + "/YYYY"
  {
    assert "MM/YYYY" == "" + "MM" + "/YYYY";
    ReplaceAfter("", "MM", "/YYYY", month);
    assert "" + month + "/YYYY" == month + "/YYYY";
  }

  /** `YYYY` after the month digits and a slash. */
  lemma YearAfterMonth(month: string, year: string)
    requires AllDigits(month)
    ensures ReplaceFirst(month + "/YYYY", "YYYY", year) == month + "/" + year
  {
    NotInDigits(month, 'Y');
    assert month + "/YYYY" == (month + "/") + "YYYY" + "";
    ReplaceAfter(month + "/", "YYYY", "", year);
    assert (month + "/") + year + "" == month + "/" + year;
  }

  // ---------------------------------------------------------------------------------------------
  // Options and layout

  /** The default options render the date part alone, with the default template. */
  lemma RenderDefaults(f: Fields)
    requires Padded(f)
    ensures Render(f, None, false, false, None, DefaultSeparator) == f.day + "/" + f.month + "/" + f.year
  {
    FillDefaultDate(f.day, f.month, f.year);
  }

  /** `format()` renders now as `DD/MM/YYYY`: day and month padded to two digits, the year as is, no time. */
  lemma FormatDefaults(now: int, host: Host)
    ensures var c := LocalCivil(now, host.offset);
      FormatOf(Omitted, None, None, None, None, None, now, host)
        == Padded2(c.day) + "/" + Padded2(c.month) + "/" + IntToString(c.year)
  {
    var f := LocalFields(LocalTime(now, host.offset));
    assert FormatOf(Omitted, None, None, None, None, None, now, host) == Render(f, None, false, false, None, DefaultSeparator);
    RenderDefaults(f);
    LocalFieldsCivil(now, host.offset);
  }

  /** With the time switched on and the default templates: `DD/MM/YYYY`, the separator, `HH:mm`. */
  lemma RenderWithHour(f: Fields, separator: string)
    requires Padded(f)
    ensures Render(f, None, true, false, None, separator)
      == f.day + "/" + f.month + "/" + f.year + separator + f.hours + ":" + f.minutes
  {
    FillDefaultDate(f.day, f.month, f.year);
    FillDefaultTime(f.hours, f.minutes, f.seconds);
  }

  /** `format({ include_hour: true })` adds `' - '` and the time as `HH:mm`. */
  lemma FormatWithHour(date: DateArg, now: int, host: Host)
    ensures var f := LocalFields(LocalTime(FormatInstant(date, now, host), host.offset));
      FormatOf(date, None, Some(true), None, None, None, now, host)
        == f.day + "/" + f.month + "/" + f.year + " - " + f.hours + ":" + f.minutes
  {
    var f := LocalFields(LocalTime(FormatInstant(date, now, host), host.offset));
    assert FormatOf(date, None, Some(true), None, None, None, now, host) == Render(f, None, true, false, None, DefaultSeparator);
    RenderWithHour(f, DefaultSeparator);
  }

  /** `only_hour: true` switches the time on by default and shows it alone, with no separator. */
  lemma FormatOnlyHour(date: DateArg, dateFormat: Option<string>, hourFormat: Option<string>, separator: Option<string>,
                       now: int, host: Host)
    ensures FormatOf(date, dateFormat, None, Some(true), hourFormat, separator, now, host)
      == TimePart(hourFormat.GetOr(DefaultHourFormat), LocalFields(LocalTime(FormatInstant(date, now, host), host.offset)))
  {
  }

  /** An empty date template gives no separator either: the result is the time part alone. */
  lemma RenderEmptyDateFormat(f: Fields, hourFormat: Option<string>, separator: string)
    ensures Render(f, Some(""), true, false, hourFormat, separator) == TimePart(hourFormat.GetOr(DefaultHourFormat), f)
  {
    assert DatePart("", f) == "" by {
      ReplaceMissing("", "DD", f.day);
      ReplaceMissing("", "MM", f.month);
      ReplaceMissing("", "YYYY", f.year);
    }
  }

  /** With a non-empty date part and the time on, the separator joins the two. */
  lemma RenderSeparator(f: Fields, dateFormat: Option<string>, hourFormat: Option<string>, separator: string)
    requires DatePart(dateFormat.GetOr(DefaultDateFormat), f) != ""
    ensures Render(f, dateFormat, true, false, hourFormat, separator)
      == DatePart(dateFormat.GetOr(DefaultDateFormat), f) + separator + TimePart(hourFormat.GetOr(DefaultHourFormat), f)
  {
  }

  /** A blank `hourFormat` does not switch the time on: `hasValue` of a blank string is false. */
  lemma BlankHourFormatNoHour(date: DateArg, now: int, host: Host)
    ensures FormatOf(date, None, None, None, Some("  "), None, now, host)
      == DatePart(DefaultDateFormat, LocalFields(LocalTime(FormatInstant(date, now, host), host.offset)))
  {
    assert Emptiness.AllWhiteSpace("  ") by {
      assert Emptiness.IsWhiteSpace(' ');
    }
  }
}
