# dateutils in Dafny

This project models the `DateUtils` class of the `dateutils` library (`src/index.ts`) and the
emptiness helper it relies on (`fun.isEmpty` / `fun.hasValue`, `src/core/services/functions.service.ts`).
It proves properties of that model.

`DateUtils` is a set of static helpers over JavaScript `Date` values. They cover:

- Spanish month tables.
- A strict `HH:mm` validator.
- First and last days of a year or month.
- The current month, and `isValid`.
- A template formatter, `format`.
- A `DD/MM/YYYY - H:mm AM|PM` reader, `convertStringToDate`.
- `diffHours` and `diffDays`.
- `addHours`, `subtractHours`, `addDays` and `subtractDays`.

The host `Date` primitive is modelled after section 21.4.1 of ECMA-262:

- A time value is an integer number of milliseconds since the epoch. `Option<int>` stands for a time value that may be NaN.
- Day numbers and civil dates convert both ways on the proleptic Gregorian calendar.
- `new Date(y, m, d, h, min, s, ms)` normalises overflowing fields through MakeDay and MakeDate.
- It reads years 0..99 as 1900 + y.
- Local time is UTC plus a fixed offset.

Two things depend on the engine:

- What the engine's string parser makes of a string is a parameter: the `parse` function of a `Host`, which also carries the offset.
- The clock reading `new Date()` is a parameter `now`.

Anchoring an `HH:mm` string to `1970-01-01T..:00` follows the ECMA-262 date-time string format: a date-time without an offset is local time.

Modules, one per part of the program:

- `Wrappers`: `Option`.
- `Emptiness`: `fun.isEmpty` / `fun.hasValue` over a datatype of JavaScript values.
- `Text`: the string built-ins the code uses:
  - decimal digits and `parseInt`;
  - `String(n)`;
  - `padStart`;
  - `indexOf`;
  - `replace` with a string pattern.
- `TimeMath`: time values, day numbers and civil dates.
- `JsDates`: `new Date(...)` with fields, and the `JsDate` class whose `time` field `setHours` and `setDate` update in place.
- `MonthTables`: `monthNumber`, `monthLabel`, `getMonthsLabelArray` and `getMonthLabelByNum`.
- `DateUtils`: the regular expression, first and last days, `getActualMonth`, `isValid`, argument resolution, `diffHours`, `diffDays`, and the four shifting operations.
- `DateFormat`: `format`. It keeps the caller's options object as a class whose fields the method updates, as the code does.
- `DateParse`: `convertStringToDate`.

## Model

| member | source | states |
|---|---|---|
| Emptiness.IsEmpty | src/core/services/functions.service.ts:12-24 | A string is empty exactly when all its characters are white space. An empty value is nullish, a string, an array, a Date or an object; numbers, booleans, bigints, symbols and functions never are. |
| Emptiness.HasValue | src/core/services/functions.service.ts:35-37 | `hasValue` is the negation of `isEmpty`, stated case by case. Nullish values have no value. A string has one when some character is not white space. An array has one when it has an element, whatever that element is. A Date has one when its time value is not NaN, although it has no own keys. Other objects have one when they have an own key. All other values always have one. |
| Emptiness.TrimEmptyIff | src/core/services/functions.service.ts:15 | `value.trim().length === 0` exactly when every character is white space. |
| Emptiness.TrimStart | src/core/services/functions.service.ts:15 | Removes exactly the leading white space: the result is a suffix, what was cut is white space, and the result starts with a non-white-space character or is empty. |
| Emptiness.TrimEnd | src/core/services/functions.service.ts:15 | Removes exactly the trailing white space, symmetrically. |
| Emptiness.Trim | src/core/services/functions.service.ts:15 | No contract; `trim()`, defined by its body; see `Emptiness.TrimStart`, `Emptiness.TrimEnd`, `Emptiness.TrimEmptyIff`. |
| MonthTables.Lookup | src/index.ts:60 | Property access finds nothing exactly when no key matches; otherwise it finds a value filed under that key. |
| MonthTables.Values | src/index.ts:50 | `Object.values` lists the values, in insertion order. |
| MonthTables.NumberValues | src/index.ts:8-21 | `monthNumber` numbers its twelve names 1 to 12 in order. |
| MonthTables.NamesDistinct | src/index.ts:8-21 | The twelve month names are distinct. |
| MonthTables.LabelKeysSpelled | src/index.ts:27-40 | The keys are spelled `_1_`, `_9_`, `_10_`, `_12_`. |
| MonthTables.LabelTable | src/index.ts:27-40 | `monthLabel` files the same names, in the same order, under `_1_` to `_12_`. |
| MonthTables.LabelKeyInjective | src/index.ts:60 | Two keys `_a_` and `_b_` are equal only when a = b. |
| MonthTables.NumberOfName | src/index.ts:8-21 | Looking up each name in `monthNumber` gives its month number. |
| MonthTables.NameOfNumber | src/index.ts:27-40 | Key `_n_` holds the n-th name when n is in 1..12. For any other n it is undefined. |
| MonthTables.LabelsAreNames | src/index.ts:27-51 | `Object.values(monthLabel)` is the names of `monthNumber`, enero to diciembre. |
| MonthTables.LabelArrayNumbers | src/index.ts:8-51 | The i-th label maps back to i + 1 in `monthNumber`. |
| MonthTables.LabelByNumber | src/index.ts:27-61 | Looking up `_n_` gives the n-th value exactly for n in 1..12, and undefined otherwise. |
| MonthTables.GetMonthsLabelArray | src/index.ts:49-51 | Twelve names, January first; the i-th names month i + 1. |
| MonthTables.GetMonthLabelByNum | src/index.ts:59-61 | Defined exactly for n in 1..12. There it is the n-th entry of `getMonthsLabelArray()`, and `monthNumber` maps it back to n. |
| MonthTables.LookupAt | src/index.ts:60 | In a table with distinct keys, the i-th key finds the i-th value. |
| MonthTables.MonthTablesInverse | src/index.ts:8-61 | For every name, labelling its number gives that name back. |
| Text.DigitValue | src/index.ts:193-197 | A digit's value is in 0..9. |
| Text.DigitChar | src/index.ts:139-144 | The digit character for 0..9 is a digit worth that number. |
| Text.DigitsValue | src/index.ts:193-197 | No contract; `parseInt(s, 10)` of a string of digits, defined by its body; see `Text.TwoDigitsValue`, `Text.Padded2Value`. |
| Text.TwoDigitsValue | src/index.ts:193-197 | `parseInt` of two digits is 10 × the first digit + the second. |
| Text.NatToString | src/index.ts:141 | `String(n)` is non-empty decimal digits worth n, with no leading zero. It is one character exactly when n < 10. |
| Text.IntToString | src/index.ts:141 | A non-negative number is its digits alone; a negative one is a minus sign followed by the digits of its absolute value, and only a negative one starts with a minus. |
| Text.IntToStringInjective | src/index.ts:141 | Different integers give different strings. |
| Text.PadStart | src/index.ts:139-144 | `padStart` keeps the string as its suffix and fills the front with the fill character up to the target length. |
| Text.Padded2 | src/index.ts:139-144 | `String(n).padStart(2, '0')` for n < 100 is exactly two digits: tens, then units. |
| Text.Padded2Value | src/index.ts:139-144 | The two padded digits read back as n. |
| Text.IndexOf | src/index.ts:148-158 | No contract; the search for the first occurrence of a string pattern inside `replace`, defined by its body; see `Text.IndexFromFirst`, `Text.ReplaceAt`. |
| Text.IndexFromFirst | src/index.ts:148-151 | The search finds an occurrence, and none lies before it. When it finds nothing, there is no occurrence at all. |
| Text.ReplaceAbsent | src/index.ts:148-151 | `replace` leaves a string without the pattern unchanged. |
| Text.ReplaceFirst | src/index.ts:148-158 | No contract; `replace` with a string pattern, defined by its body; see `Text.ReplaceAt`, `Text.ReplaceAbsent`. |
| Text.ReplaceAt | src/index.ts:148-151 | `replace` substitutes exactly the first occurrence. |
| TimeMath.DaysInMonth | src/index.ts:95 | Month lengths are 28 to 31. |
| TimeMath.CivilFromDays | src/index.ts:139-141 | Every day number has a valid civil date, and that date's day number is the day number given. |
| TimeMath.DaysFromCivilInverse | src/index.ts:70-96 | A valid date's day number converts back to the same date. |
| TimeMath.SplitEra | src/index.ts:139-141 | Splits a day of a 400-year era into a March year and a day inside it. |
| TimeMath.SplitEraUnique | src/index.ts:139-141 | That split is the unique one. |
| TimeMath.MarchMonthOf | src/index.ts:139-141 | The March-based month containing a day of the year. |
| TimeMath.LeapPeriodic | src/index.ts:95 | Leap years repeat every 400 years. |
| TimeMath.NextMonthStart | src/index.ts:95 | The first day of the next month follows the last day of this one, also from December to January. |
| TimeMath.DayFromYearAgrees | src/index.ts:70-72 | The era conversion agrees with ECMA-262's DayFromYear formula for every year. |
| TimeMath.YearLength | src/index.ts:70-72 | A year has 366 days exactly in Gregorian leap years. |
| TimeMath.TimeParts | src/index.ts:142-144 | A time value is its day plus its hours, minutes, seconds and milliseconds. |
| TimeMath.ClockBounds | src/index.ts:142-144 | The hour, minute and second of a time value are the whole hours since midnight, the whole minutes since the start of the hour and the whole seconds since the start of the minute. |
| TimeMath.TimeFields | src/index.ts:142-144 | In-range clock fields read back unchanged. |
| TimeMath.DayAndTime | src/index.ts:207 | A day number and a time within the day are recovered from their time value. |
| TimeMath.MakeDayInRange | src/index.ts:83 | MakeDay on an in-range 0-based month is the civil day number of the 1-based month. |
| TimeMath.HourFromTime | src/index.ts:142 | Hours are 0..23. |
| TimeMath.MonthFromTime | src/index.ts:140 | Months are 0..11. |
| TimeMath.DateFromTime | src/index.ts:139 | Day of month is 1..31. |
| JsDates.MakeFullYear | src/index.ts:71 | The host rule of `new Date(y, …)` for a year y from 0 to 99: the year used is never a two-digit one, it is either y or y + 1900, and any other year is kept. |
| JsDates.LocalCivil | src/index.ts:139-141 | A time value's local calendar date is always valid. |
| JsDates.ConstructLocal | src/index.ts:207 | No contract; `new Date(year, month, date, hours, minutes, seconds, ms)` read in local time, as also used at lines 71, 83, 95 and 260, defined by its body; see `JsDates.ConstructLocalFields`, `JsDates.ConstructLocalDay`. |
| JsDates.ConstructLocalFields | src/index.ts:207 | `new Date(y, m − 1, d, h, min, s, ms)` from a valid date shows that date and that time of day again. Years 0..99 are excepted. |
| JsDates.LocalOfUtc | src/index.ts:207 | A local day and time converted to UTC and back are unchanged. |
| JsDates.SetHoursTime | src/index.ts:290 | No contract; `setHours(hour)` on a time value, defined by its body; see `JsDates.SetHoursShifts`, `JsDates.SetHoursBy`. |
| JsDates.SetHoursShifts | src/index.ts:290 | `setHours(h)` moves the instant by (h − old local hour) hours. |
| JsDates.SetHoursBy | src/index.ts:344 | `setHours(getHours() + n)` moves the instant by exactly n hours, whatever the overflow. |
| JsDates.SetDateTime | src/index.ts:317 | No contract; `setDate(date)` on a time value, defined by its body; see `JsDates.SetDateShifts`, `JsDates.SetDateBy`. |
| JsDates.SetDateShifts | src/index.ts:317 | `setDate(d)` moves the instant by (d − old day of month) days. |
| JsDates.SetDateBy | src/index.ts:371 | `setDate(getDate() + n)` moves the instant by exactly n days, across months and years. |
| JsDates.DayOfMonthShift | src/index.ts:371 | Changing the local day of month changes the day number by the same amount. |
| JsDates.CivilDayShift | src/index.ts:371 | The same, for a valid civil date. |
| JsDates.JsDate.constructor | src/index.ts:289 | A new Date holds the given time value. |
| JsDates.JsDate.GetHours | src/index.ts:142 | Defined exactly for valid dates, with a value in 0..23: the number of whole hours since local midnight. |
| JsDates.JsDate.GetDate | src/index.ts:139 | Defined exactly for valid dates, with a value in 1..31: the day of the local calendar date. |
| JsDates.JsDate.GetFullYear | src/index.ts:141 | Defined exactly for valid dates; the local calendar year. |
| JsDates.JsDate.GetMonth | src/index.ts:140 | Defined exactly for valid dates; the local month minus one, in 0..11. |
| JsDates.JsDate.GetMinutes | src/index.ts:143 | Defined exactly for valid dates, with a value in 0..59: the number of whole minutes since the start of the local hour. |
| JsDates.JsDate.GetSeconds | src/index.ts:144 | Defined exactly for valid dates, with a value in 0..59: the number of whole seconds since the start of the local minute. |
| JsDates.JsDate.SetHours | src/index.ts:290 | The new time is `setHours` of the old one; nothing else changes. |
| JsDates.JsDate.SetDate | src/index.ts:317 | The new time is `setDate` of the old one; nothing else changes. |
| DateUtils.HourMinute | src/index.ts:42 | No contract; `hourMinuteRegExp`, defined by its body; see `DateUtils.HourMinuteIff`. |
| DateUtils.HourMinuteIff | src/index.ts:42 | The pattern accepts exactly: length 5, ':' at index 2, two digits worth at most 23 before it and two digits worth at most 59 after it. |
| DateUtils.HourOf | src/index.ts:233 | No contract; the hour of an `HH:mm` string, defined by its body; see `DateUtils.AnchorFields`, `DateUtils.DiffHoursClock`. |
| DateUtils.MinuteOf | src/index.ts:233 | No contract; the minute of an `HH:mm` string, defined by its body; see `DateUtils.AnchorFields`, `DateUtils.DiffHoursClock`. |
| DateUtils.LocalMidnight | src/index.ts:70-96 | Local midnight of a valid date shows that date at time 0. |
| DateUtils.GetFirstDayOfYear | src/index.ts:70-72 | Local midnight of January 1st of the full year. |
| DateUtils.GetFirstDayOfMonth | src/index.ts:82-84 | Local midnight of day 1 of the month. An out-of-range month rolls into the neighbouring years; for 1..12 it is that year and month. |
| DateUtils.FirstDayOfMonthCivil | src/index.ts:83 | The same, for the constructed value. |
| DateUtils.GetLastDayOfMonth | src/index.ts:94-96 | Day 0 of the next month is the last day of the month: day = days in month, with Feb 29 in leap years. Month 12 gives Dec 31 through overflow. For 1..12 it is the same year and month. |
| DateUtils.LastDayOfMonthCivil | src/index.ts:95 | The same, for the constructed value. |
| DateUtils.DayZero | src/index.ts:95 | MakeDay(y, m, 0) is the day number of the last day of 1-based month m, normalised. |
| DateUtils.LastDayOfFebruary | src/index.ts:94-96 | February 2024 ends on the 29th and February 2023 on the 28th. |
| DateUtils.ConstructedMidnight | src/index.ts:70-96 | A date constructed at midnight on a valid date's day number shows that date. |
| DateUtils.ConstructMidnight | src/index.ts:70-96 | `new Date(y, m, d)` is the UTC instant of local midnight of MakeDay on the full year. |
| DateUtils.RolledMonth | src/index.ts:83 | A month in 1..12 is its own normal form. |
| DateUtils.DayOfMonthLinear | src/index.ts:95 | The day of month adds linearly to the day number. |
| DateUtils.GetActualMonth | src/index.ts:103-105 | The clock reading's local month, 1-based, in 1..12. |
| DateUtils.IsValid | src/index.ts:113-115 | True exactly for a Date that `hasValue` accepts, i.e. a Date whose time value is not NaN. |
| DateUtils.OrNow | src/index.ts:224 | No contract; an omitted argument is now and any other is kept, defined by its body; see `DateUtils.DiffHoursOf`, `DateUtils.ResolveDate`, `DateUtils.ShiftedRoundTrip`. |
| DateUtils.AnchorTime | src/index.ts:233-234 | No contract; `new Date('1970-01-01T' + s + ':00')` for an `HH:mm` string s, defined by its body; see `DateUtils.AnchorFields`. |
| DateUtils.AnchorFields | src/index.ts:233-234 | An anchored `HH:mm` is 1970-01-01 local, at that hour and minute, with zero seconds and milliseconds. |
| DateUtils.NewDate | src/index.ts:227-228 | No contract; `new Date(x)` of a string or Date argument, defined by its body; see `DateUtils.Resolve`, `DateUtils.ResolveDate`, `DateUtils.DiffHours`. |
| DateUtils.Resolve | src/index.ts:226-237 | Omitted gives NaN. A Date is kept. A string resolves exactly when the host parses it or it is `HH:mm`. The host's reading comes first; otherwise the string is anchored to 1970-01-01. |
| DateUtils.HoursBetween | src/index.ts:238-239 | The millisecond difference divided exactly by 3600000. |
| DateUtils.DiffHoursOf | src/index.ts:223-244 | Defined exactly when both arguments resolve, a missing `time2` meaning now. The value is (time2 − time1) in hours. |
| DateUtils.DiffHours | src/index.ts:223-244 | Reassigning both parameters step by step as the code does gives `DiffHoursOf`. |
| DateUtils.DiffHoursSwap | src/index.ts:238-240 | Swapping two given arguments negates the result, and keeps whether it is defined. |
| DateUtils.DiffHoursClock | src/index.ts:230-240 | Two `HH:mm` strings the host rejects differ by their clock-minute difference / 60, under any offset. |
| DateUtils.DiffHoursExample | src/index.ts:221 | `diffHours('03:12', '15:30')` is 12.3 when the host rejects both strings. |
| DateUtils.DiffDays | src/index.ts:258-269 | Defined exactly when both dates are valid; never negative. |
| DateUtils.WholeDays | src/index.ts:264-268 | Whole days from the earlier to the later instant; never negative. |
| DateUtils.WholeDaysSymmetric | src/index.ts:264-268 | The argument order does not matter. |
| DateUtils.DiffDaysSymmetric | src/index.ts:258-269 | `diffDays(a, b) == diffDays(b, a)`. |
| DateUtils.DiffDaysSameDay | src/index.ts:258-269 | Two instants on the same local day are 0 days apart, whatever their times. |
| DateUtils.Normalized | src/index.ts:260-261 | No contract; the 1 AM date `diffDays` rebuilds from the local year, month and day, defined by its body; see `DateUtils.NormalizedDay`, `DateUtils.MidnightNormalized`, `DateUtils.DiffDaysEarlyYears`. |
| DateUtils.NormalizedDay | src/index.ts:260-261 | Outside years 0..99, normalising keeps the local day and sets 1 AM. |
| DateUtils.DiffDaysCount | src/index.ts:258-269 | Outside years 0..99, the result is the absolute difference of the local day numbers. |
| DateUtils.DayDistance | src/index.ts:268 | Two 1 AM instants are exactly their day-number distance apart. |
| DateUtils.DiffDaysExample | src/index.ts:252-256 | The code's example, 2024-01-01 to 2024-03-01, gives 60 under any offset of less than a day. |
| DateUtils.ExampleDays | src/index.ts:252-256 | The example's instants fall on the given local dates. |
| DateUtils.LocalDayOf | src/index.ts:253-254 | UTC midnight of day z falls on local day z or z − 1, in that date's year. |
| DateUtils.YearOfDay | src/index.ts:260 | A time value on a valid date's day number is in that date's year. |
| DateUtils.DayNumbers2024 | src/index.ts:252-256 | The day numbers of the example's dates. |
| DateUtils.DiffDaysEarlyYears | src/index.ts:260-261 | As written: 50-06-01 and 1950-06-01 come out 0 days apart, though 693960 days separate them. |
| DateUtils.EarlyYearsCountZero | src/index.ts:260-268 | The count for that pair is 0. |
| DateUtils.EarlyYearsApart | src/index.ts:260-261 | The local day numbers of that pair differ by 693960. |
| DateUtils.EarlyYearsNormalizeAlike | src/index.ts:260-261 | Both instants of that pair normalise to the same instant. |
| DateUtils.CenturiesApart | src/index.ts:260-261 | 693960 days lie between 50-06-01 and 1950-06-01. |
| DateUtils.MidnightNormalized | src/index.ts:260-261 | Normalising a local midnight is `new Date(y, m − 1, d, 1, 0, 0, 0)` of its own fields. |
| DateUtils.NormalizedFullYear | src/index.ts:260-261 | No contract; the corrected normalisation, 1 AM of the local date with the year kept as it is, defined by its body; see `DateUtils.DiffDaysFullYear`, `DateUtils.DiffDaysFullYearCount`, `DateUtils.DiffDaysAgree`. |
| DateUtils.DiffDaysFullYear | src/index.ts:258-269 | Corrected: defined exactly when both dates are valid. |
| DateUtils.DiffDaysFullYearCount | src/index.ts:258-269 | Corrected: the absolute difference of the local day numbers, for every year. |
| DateUtils.DiffDaysAgree | src/index.ts:258-269 | Outside years 0..99 the code and the correction agree. |
| DateUtils.ResolveDate | src/index.ts:279-286 | The parameter, reassigned as the code does, ends as a valid Date exactly when `Resolve` of the argument (omitted meaning now) succeeds; that Date is the resolved instant. |
| DateUtils.Shifted | src/index.ts:278-296 | No contract; the instant a shift returns: the resolved date (omitted meaning now) moved by the amount, or now for an unresolvable argument, defined by its body; see `DateUtils.ShiftedRoundTrip`, `DateUtils.ShiftedUnresolvable`, `DateUtils.AddHours`, `DateUtils.SubtractHours`, `DateUtils.AddDays`, `DateUtils.SubtractDays`. |
| DateUtils.ShiftedRoundTrip | src/index.ts:332-377 | Shifting the result back by the same amount gives the resolved date again, whatever the second clock reads. For an unresolvable argument it gives the first clock reading moved back. This covers `subtractDays(n, addDays(n, d)) == d`. |
| DateUtils.ShiftedUnresolvable | src/index.ts:295 | A string that neither the host nor the pattern accepts makes every shift return now. |
| DateUtils.HoursLater | src/index.ts:289-290 | A fresh copy, moved by `setHours(getHours() + n)`, is exactly n hours later. |
| DateUtils.DaysLater | src/index.ts:316-317 | A fresh copy, moved by `setDate(getDate() + n)`, is exactly n days later. |
| DateUtils.AddHours | src/index.ts:332-350 | A fresh Date, n hours after the resolved date (omitted meaning now), or now when the argument does not resolve. |
| DateUtils.SubtractHours | src/index.ts:278-296 | Its contract is `AddHours`'s with −n hours, i.e. `subtractHours(n, d) == addHours(-n, d)`. |
| DateUtils.AddDays | src/index.ts:359-377 | A fresh Date, n days after the resolved date, or now when the argument does not resolve. |
| DateUtils.SubtractDays | src/index.ts:305-323 | Its contract is `AddDays`'s with −n days. |
| DateFormat.FormatParams.constructor | src/index.ts:130 | `params = {}`: every property absent. |
| DateFormat.DateJs | src/index.ts:131-132 | No contract; the `date` property as the value given to `hasValue` and `isEmpty`, defined by its body; see `DateFormat.FormatInstant`. |
| DateFormat.BoolJs | src/index.ts:134-135 | No contract; a boolean property as the value given to `isEmpty` and `hasValue`, defined by its body; see `DateFormat.IncludeHourOption`. |
| DateFormat.StrJs | src/index.ts:135 | No contract; a string property as the value given to `hasValue`, defined by its body; see `DateFormat.IncludeHourOption`, `DateFormat.BlankHourFormatNoHour`. |
| DateFormat.FormatInstant | src/index.ts:131-132 | A valid Date is kept. A non-blank string the host parses is parsed. A blank or unparseable string, an omitted date and an invalid Date all become now. |
| DateFormat.OnlyHourOption | src/index.ts:134 | No contract; `only_hour` with `false` for an absent one, defined by its body; see `DateFormat.IncludeHourOption`, `DateFormat.FormatOnlyHour`. |
| DateFormat.SeparatorOption | src/index.ts:136 | No contract; `separator` with `' - '` for an absent one, defined by its body; see `DateFormat.FormatWithHour`. |
| DateFormat.IncludeHourOption | src/index.ts:135 | A given `include_hour` is kept. An absent one is `only_hour ∨ hasValue(hourFormat)`, where a blank `hourFormat` does not count. |
| DateFormat.LocalFields | src/index.ts:139-144 | Day, month, hours, minutes and seconds are two digits each. |
| DateFormat.LocalFieldsCivil | src/index.ts:139-141 | The fields show the instant's local date: the day and the 1-based month padded, the year unpadded. |
| DateFormat.ResolveFormatDate | src/index.ts:131-132 | The caller's `date` becomes the rendered instant; nothing else changes. |
| DateFormat.FillOptionDefaults | src/index.ts:134-136 | `only_hour`, `include_hour` and `separator` get their defaults; nothing else changes. |
| DateFormat.FieldStrings | src/index.ts:139-144 | The getter-based strings are the local fields of the date. |
| DateFormat.Compose | src/index.ts:138-163 | The date part, then the separator and the time part, from the resolved options. |
| DateFormat.Format | src/index.ts:129-164 | With no options object, the result is the all-defaults rendering. Otherwise it renders the caller's options, and the object ends with the resolved date and the three defaults filled in, templates unchanged. |
| DateFormat.ReplaceMissing | src/index.ts:148-151 | A template in which the token cannot start is left unchanged. |
| DateFormat.ReplaceAfter | src/index.ts:148-151 | The first token after a prefix in which it cannot start is the one substituted. |
| DateFormat.NotInDigits | src/index.ts:148-151 | No non-digit occurs in a digit string. |
| DateFormat.DefaultDay | src/index.ts:149 | `DD` of the default template. |
| DateFormat.DefaultMonth | src/index.ts:150 | `MM` of the default template, after the day digits. |
| DateFormat.DefaultYear | src/index.ts:151 | `YYYY` of the default template, after day and month digits. |
| DateFormat.FillDefaultDate | src/index.ts:148-151 | The default template gives day/month/year. |
| DateFormat.FillDefaultTime | src/index.ts:155-158 | The default time template gives hours:minutes. |
| DateFormat.LowercaseDateTemplate | src/index.ts:148-151 | Tokens are case-sensitive: `dd/mm/yyyy` is left as it is. |
| DateFormat.FirstOccurrenceOnly | src/index.ts:148-151 | Only the first `DD` is replaced: `DD-DD` gives day + `-DD`. |
| DateFormat.MissingTokenLeftOut | src/index.ts:148-151 | A template without `DD` shows no day: `MM/YYYY` gives month/year. |
| DateFormat.MonthFirst | src/index.ts:150 | `MM` at the start of `MM/YYYY`. |
| DateFormat.YearAfterMonth | src/index.ts:151 | `YYYY` after the month digits. |
| DateFormat.DatePart | src/index.ts:146-152 | No contract; the date part `fecha`: the date template, by default `DD/MM/YYYY`, with its tokens filled in, defined by its body; see `DateFormat.RenderDefaults`, `DateFormat.RenderEmptyDateFormat`. |
| DateFormat.TimePart | src/index.ts:154-158 | No contract; the time part: the time template, by default `HH:mm`, with its tokens filled in, defined by its body; see `DateFormat.RenderWithHour`, `DateFormat.FormatOnlyHour`. |
| DateFormat.FillDate | src/index.ts:147-151 | No contract; the three `replace` calls on the date template, defined by its body; see `DateFormat.FillDefaultDate`, `DateFormat.FirstOccurrenceOnly`, `DateFormat.MissingTokenLeftOut`, `DateFormat.LowercaseDateTemplate`. |
| DateFormat.FillTime | src/index.ts:155-158 | No contract; the three `replace` calls on the time template, defined by its body; see `DateFormat.FillDefaultTime`. |
| DateFormat.Render | src/index.ts:146-161 | No contract; the string `format` builds from the date fields and the filled-in options, defined by its body; see `DateFormat.RenderDefaults`, `DateFormat.RenderWithHour`, `DateFormat.RenderSeparator`, `DateFormat.RenderEmptyDateFormat`. |
| DateFormat.FormatOf | src/index.ts:129-164 | No contract; the string `format` returns for given options, defined by its body; see `DateFormat.FormatDefaults`, `DateFormat.FormatWithHour`, `DateFormat.FormatOnlyHour`, `DateFormat.BlankHourFormatNoHour`, and the method `DateFormat.Format`. |
| DateFormat.RenderDefaults | src/index.ts:146-152 | The default options render `DD/MM/YYYY` alone. |
| DateFormat.FormatDefaults | src/index.ts:129-164 | `format()` is now's local date: day and month padded to two digits, the year unpadded, no time. |
| DateFormat.RenderWithHour | src/index.ts:146-161 | With the time on and default templates: date, separator, `HH:mm`. |
| DateFormat.FormatWithHour | src/index.ts:129-164 | `format({ include_hour: true })` is date + `' - '` + hours:minutes. |
| DateFormat.FormatOnlyHour | src/index.ts:134-160 | `only_hour: true` switches the time on by default and gives the time part alone, with no separator. |
| DateFormat.RenderEmptyDateFormat | src/index.ts:147-160 | `dateFormat: ''` gives no separator, only the time part. |
| DateFormat.RenderSeparator | src/index.ts:160 | With a non-empty date part, the separator joins date and time. |
| DateFormat.BlankHourFormatNoHour | src/index.ts:135 | A blank `hourFormat` does not switch the time on. |
| DateParse.MatchSpelled | src/index.ts:181 | Every well-formed set of groups is matched by its spelling, and read back unchanged. |
| DateParse.MatchedSpelled | src/index.ts:181-190 | A match is well formed, and the string is exactly the spelling of its groups. |
| DateParse.MatchDateTime | src/index.ts:181-183 | No contract; `s.match(pattern)` for the `DD/MM/YYYY - h:mm AM` pattern, defined by its body; see `DateParse.MatchSpelled`, `DateParse.MatchedSpelled`. |
| DateParse.To24Hour | src/index.ts:199-204 | No contract; the AM/PM adjustment of the parsed hour, defined by its body; see `DateParse.To24HourRange`, `DateParse.To24HourInjective`. |
| DateParse.To24HourRange | src/index.ts:199-204 | For hours 1..12 the 24-hour value is in 0..23: below 12 for AM, at least 12 for PM. |
| DateParse.To24HourInjective | src/index.ts:199-204 | Different (hour, period) pairs give different 24-hour values. |
| DateParse.MatchedTime | src/index.ts:207 | No contract; the `new Date(parsedYear, parsedMonth, parsedDay, parsedHour, parsedMinute)` built from a match, defined by its body; see `DateParse.MatchedFields`, `DateParse.ConvertStringToDate`. |
| DateParse.ConvertStringToDate | src/index.ts:178-214 | Without a match, the host's reading is returned as it is, even when invalid. With a match, the result is `new Date(year, month − 1, day, 24-hour, minute)`. |
| DateParse.MatchedFields | src/index.ts:193-207 | A real date with a 12-hour time (year > 99) shows that local date, the 24-hour value and the minute, with zero seconds. This makes the month 0-indexed. |

## Left out

- Building the package (`rollup.config.js`) is not part of this model.
- Host string parsing (`new Date(string)`) is the `parse` parameter of `Host`, because its results are engine-specific. The clock (`new Date()`) is the parameter `now`.
- Time zones and daylight saving are not modelled: local time is UTC plus a fixed offset. So the 1 AM normalisation in `diffDays` has no daylight saving effect to protect against.
- The ±8.64e15 ms range of time values (TimeClip) is not modelled; time values are unbounded integers. The `return null` of `convertStringToDate` (line 211) is unreachable in the code itself: the pattern admits at most a four-digit year, two-digit months, days and minutes, and hours up to 111 (99 + 12), so the date it builds lies far inside that range. `DateParse.ConvertStringToDate` keeps the check, and it is never taken.
- Numbers are integers, for every numeric parameter: the amounts of the shifting operations, `year` and `month` of `getFirstDayOfYear`, `getFirstDayOfMonth` and `getLastDayOfMonth`, and `numberOfMonth` of `getMonthLabelByNum`. Other numbers are not modelled: the `Date` constructor and the setters truncate a fractional value, NaN gives an Invalid Date, and a fractional `numberOfMonth` builds a key such as `_3.5_` that the table does not have.
- `DateUtils.HoursBetween`: `diffHours` divides exactly, as a `real`, not in IEEE double precision.
- The `TypeError` that `convertStringToDate` throws when `dateString` is missing (line 183) is not modelled: `DateParse.ConvertStringToDate` takes a string.
- Its unused `include_hour` and `separator` options are not modelled either.
- `format`'s `date` property is modelled only as absent, a string or a Date (`DateArg`). Other values (a number, an object) and the `new Date(params.date)` of line 138 for them are not modelled.
- A Date passed to `diffHours` or to the shifting operations is passed as its time value, since the code only reads it and copies it before changing anything. Aliasing of the caller's Date is therefore not modelled.
- How the code follows years 0..99 is covered rather than excluded. The constructor's 1900 + y rule is part of `JsDates.ConstructLocal`. The lemmas about constructed dates state their year conditions (`DateUtils.NormalizedDay`, `DateUtils.DiffDaysCount`, `JsDates.ConstructLocalFields`, `DateParse.MatchedFields`).
- `DateUtils.GetFirstDayOfYear`, `DateUtils.GetFirstDayOfMonth`, `DateUtils.GetLastDayOfMonth`: through that rule, a year in 0..99 gives a date in 1900..1999.
- Some behaviour of the code, stated here so that it is not mistaken for a gap in the model:
  - Format tokens are case-sensitive (`DD`, `MM`, `YYYY`, `HH`, `mm`, `ss`).
  - The default time template is `HH:mm`. The `'LT'` of the doc comment's example (line 127) contains none of the tokens, so it is copied as it is.
  - The default separator is `' - '`.
  - A string argument is given to the host parser before the `HH:mm` pattern is tried.
  - `format` renders now, not an invalid date, for an unparseable string.
  - `convertStringToDate` returns the host's reading without a validity check when the pattern does not match.

## Findings

| source | as written | input that shows it | evidently intended | confidence | as-written member | corrected member |
|---|---|---|---|---|---|---|
| src/index.ts:260-261 | `diffDays` normalises with `new Date(getFullYear(), getMonth(), getDate(), 1, 0, 0, 0)`, which reads a year 0..99 as 1900 + year | local 50-06-01 and 1950-06-01 give 0, although their day numbers differ by 693960 | 1 AM of the same calendar date, so the count is the day-number distance for every year | not executed | DateUtils.DiffDaysEarlyYears | DateUtils.DiffDaysFullYearCount |
