/** The RFC 2822 date-time format (section 3.3 of RFC 2822) that `PubDate` is read and
    written with, for the subset of the grammar this model covers:

      date-time = [ day-name "," SP ] day SP month SP year SP hour ":" minute [ ":" second ] SP zone
      day = 1*2DIGIT, year = 4DIGIT, hour = minute = second = 2DIGIT, zone = ( "+" / "-" ) 4DIGIT

    Day and month names are read in any letter case. Formatting always writes the day name, a two-digit day and the seconds, and fails for a year
    before 1900. */
module Rfc2822 {
  import opened Wrappers
  import opened Digits

  /** A calendar date, a wall-clock time and the zone offset in minutes east of UTC. */
  datatype DateTime = DateTime(year: int, month: nat, day: nat, hour: nat, minute: nat, second: nat, offset: int)

  predicate IsLeapYear(year: int) {
    year % 4 == 0 && (year % 100 != 0 || year % 400 == 0)
  }

  function DaysInMonth(year: int, month: nat): nat
    requires 1 <= month <= 12
  {
    if month == 2 then (if IsLeapYear(year) then 29 else 28)
    else if month == 4 || month == 6 || month == 9 || month == 11 then 30
    else 31
  }

  /** The largest zone offset, 25 hours 59 minutes, in minutes. */
  const MAX_OFFSET: nat := 25 * 60 + 59

  /** The values an offset date-time can hold: a real calendar day of a year of at most four
      digits, a time of day without leap second, and a whole-minute offset. */
  predicate Valid(d: DateTime) {
    && -9999 <= d.year <= 9999
    && 1 <= d.month <= 12
    && 1 <= d.day <= DaysInMonth(d.year, d.month)
    && d.hour < 24 && d.minute < 60 && d.second < 60
    && -(MAX_OFFSET as int) <= d.offset <= MAX_OFFSET
  }

  type OffsetDateTime = d: DateTime | Valid(d) witness DateTime(1970, 1, 1, 0, 0, 0, 0)

  datatype DateError =
    | InvalidLiteral
    | InvalidComponent(component: string)
    | InconsistentComponents
    | TrailingCharacters

  const WEEKDAYS: seq<string> := ["Mon", "Tue", "Wed", "Thu", "Fri", "Sat", "Sun"]
  const MONTHS: seq<string> := ["Jan", "Feb", "Mar", "Apr", "May", "Jun", "Jul", "Aug", "Sep", "Oct", "Nov", "Dec"]

  /** Days in the months of `year` before `month`. */
  function DaysBeforeMonth(year: int, month: nat): nat
    requires 1 <= month <= 12
  {
    if month == 1 then 0 else DaysBeforeMonth(year, month - 1) + DaysInMonth(year, month - 1)
  }

  /** Number of leap years among the years 1 .. `year`. */
  function LeapYearsThrough(year: nat): int {
    year / 4 - year / 100 + year / 400
  }

  /** Days from 1 January 1900 to a date. */
  function DayNumber(year: int, month: nat, day: nat): int
    requires year >= 1900 && 1 <= month <= 12
  {
    365 * (year - 1900) + (LeapYearsThrough(year - 1) - LeapYearsThrough(1899))
      + DaysBeforeMonth(year, month) + (day - 1)
  }

  /** Index into WEEKDAYS of the day-of-week of a date from 1900 on (1 January 1900 was a Monday). */
  function WeekdayIndex(year: int, month: nat, day: nat): (w: nat)
    requires year >= 1900 && 1 <= month <= 12 && day >= 1
    ensures w < |WEEKDAYS|
  {
    DayNumber(year, month, day) % 7
  }

  // ---------------------------------------------------------------- formatting

  function FormatDate(d: OffsetDateTime): string
    requires d.year >= 0
  {
    Pad(d.day, 2) + (" " + (MONTHS[d.month - 1] + (" " + Pad(d.year, 4))))
  }

  function FormatTime(d: OffsetDateTime): string {
    Pad(d.hour, 2) + (":" + (Pad(d.minute, 2) + (":" + Pad(d.second, 2))))
  }

  function FormatZone(offset: int): string
    requires -(MAX_OFFSET as int) <= offset <= MAX_OFFSET
  {
    var a := if offset < 0 then -offset else offset;
    [if offset < 0 then '-' else '+'] + (Pad(a / 60, 2) + Pad(a % 60, 2))
  }

  /** Everything after the day name and its comma: date, time and zone. */
  function FormatBody(d: OffsetDateTime): string
    requires d.year >= 0
  {
    FormatDate(d) + (" " + (FormatTime(d) + (" " + FormatZone(d.offset))))
  }

  /** The RFC 2822 rendering, e.g. "Tue, 01 Jul 2003 10:52:37 +0200"; a year before 1900
      cannot be written. */
  function Format(d: OffsetDateTime): (r: Result<string, DateError>)
    ensures r.Success? <==> d.year >= 1900
    ensures r.Failure? ==> r.error == InvalidComponent("year")
    ensures r.Success? ==> |r.value| == 31
  {
    if d.year < 1900 then Failure(InvalidComponent("year"))
    else
      Success(WEEKDAYS[WeekdayIndex(d.year, d.month, d.day)] + (", " + FormatBody(d)))
  }

  // ---------------------------------------------------------------- parsing

  /** Consumes the literal `lit` at the front of `s`. */
  function Literal(s: string, lit: string): (r: Result<string, DateError>)
    ensures r.Success? <==> |lit| <= |s| && s[..|lit|] == lit
    ensures r.Success? ==> s == lit + r.value
  {
    if |lit| <= |s| && s[..|lit|] == lit then Success(s[|lit|..]) else Failure(InvalidLiteral)
  }

  /** Consumes exactly `width` digits at the front of `s`. */
  function Number(s: string, width: nat, component: string): (r: Result<(nat, string), DateError>)
    ensures r.Success? ==> |r.value.1| == |s| - width && r.value.0 < Pow10(width)
  {
    if width <= |s| && AllDigits(s[..width]) then
      ValueBound(s[..width]);
      Success((Value(s[..width]), s[width..]))
    else Failure(InvalidComponent(component))
  }

  lemma {:induction false} ValueBound(s: string)
    requires AllDigits(s)
    ensures Value(s) < Pow10(|s|)
  {
    if s != [] {
      ValueBound(s[..|s| - 1]);
    }
  }

  /** One or two digits: the day of the month. */
  function DayOfMonth(s: string): Result<(nat, string), DateError> {
    if 2 <= |s| && IsDigit(s[0]) && IsDigit(s[1]) then Number(s, 2, "day")
    else Number(s, 1, "day")
  }

  /** An ASCII letter in lower case; every other character unchanged. */
  function Lower(c: char): char {
    if 'A' <= c <= 'Z' then (c as int + 32) as char else c
  }

  function LowerString(s: string): string {
    seq(|s|, i requires 0 <= i < |s| => Lower(s[i]))
  }

  /** Day and month names are literals of the grammar, and ABNF literals match without regard
      to ASCII case (section 2.3 of RFC 5234). */
  predicate SameName(a: string, b: string) {
    LowerString(a) == LowerString(b)
  }

  /** No two names of the table are the same name in different case. */
  predicate NamesDistinct(names: seq<string>) {
    forall j, k :: 0 <= j < k < |names| ==> !SameName(names[j], names[k])
  }

  /** The index of the first name in `names` that is `key` in some case. */
  function IndexOf(names: seq<string>, key: string): (r: Option<nat>)
    ensures r.Some? ==> r.value < |names| && SameName(names[r.value], key)
    ensures r.Some? ==> forall j :: 0 <= j < r.value ==> !SameName(names[j], key)
    ensures r.None? ==> forall j :: 0 <= j < |names| ==> !SameName(names[j], key)
  {
    if names == [] then None
    else if SameName(names[0], key) then Some(0)
    else match IndexOf(names[1..], key)
      case None => None
      case Some(i) => Some(i + 1)
  }

  /** A three-letter name from `names`, giving its index. */
  function Name(s: string, names: seq<string>, component: string): Result<(nat, string), DateError> {
    if 3 <= |s| then
      match IndexOf(names, s[..3])
      case Some(i) => Success((i, s[3..]))
      case None => Failure(InvalidComponent(component))
    else Failure(InvalidComponent(component))
  }

  /** day SP month SP year, giving (day, month, year, rest). */
  function ParseDate(s: string): Result<(nat, nat, nat, string), DateError> {
    var day :- DayOfMonth(s);
    var s1 :- Literal(day.1, " ");
    var month :- Name(s1, MONTHS, "month");
    var s2 :- Literal(month.1, " ");
    var year :- Number(s2, 4, "year");
    Success((day.0, month.0 + 1, year.0, year.1))
  }

  /** hour ":" minute [ ":" second ], giving (hour, minute, second, rest); no seconds means 0. */
  function ParseTime(s: string): Result<(nat, nat, nat, string), DateError> {
    var hour :- Number(s, 2, "hour");
    var s1 :- Literal(hour.1, ":");
    var minute :- Number(s1, 2, "minute");
    if 0 < |minute.1| && minute.1[0] == ':' then
      var second :- Number(minute.1[1..], 2, "second");
      Success((hour.0, minute.0, second.0, second.1))
    else
      Success((hour.0, minute.0, 0, minute.1))
  }

  /** ( "+" / "-" ) hhmm at the very end of the text, giving the offset in minutes. */
  function ParseZone(s: string): Result<int, DateError> {
    if |s| == 0 || (s[0] != '+' && s[0] != '-') then Failure(InvalidComponent("offset"))
    else
      var hours :- Number(s[1..], 2, "offset hour");
      var minutes :- Number(hours.1, 2, "offset minute");
      if minutes.1 != [] then Failure(TrailingCharacters)
      else if hours.0 > 25 || minutes.0 > 59 then Failure(InvalidComponent("offset"))
      else
        var a := hours.0 * 60 + minutes.0;
        Success(if s[0] == '-' then -a else a)
  }

  /** The optional leading day name and its comma, giving its index and the rest of the text. */
  function ParseWeekday(s: string): (r: Result<(Option<nat>, string), DateError>)
    ensures r.Success? && r.value.0.Some? ==>
      && r.value.0.value < |WEEKDAYS|
      && 5 <= |s| && SameName(WEEKDAYS[r.value.0.value], s[..3]) && s[3..5] == ", "
      && r.value.1 == s[5..]
    ensures r.Success? && r.value.0.None? ==> r.value.1 == s
    ensures r.Failure? ==> r.error == InvalidComponent("weekday")
  {
    if 5 <= |s| && s[3] == ',' && s[4] == ' ' then
      match IndexOf(WEEKDAYS, s[..3])
      case Some(i) => Success((Some(i), s[5..]))
      case None => Failure(InvalidComponent("weekday"))
    else Success((None, s))
  }

  /** The syntax of a whole date-time: the day name, if any, and the fields as written. */
  function ParseFields(s: string): (r: Result<(Option<nat>, DateTime), DateError>)
    ensures r.Success? ==> ParseWeekday(s).Success? && r.value.0 == ParseWeekday(s).value.0
  {
    var weekday :- ParseWeekday(s);
    var date :- ParseDate(weekday.1);
    var s1 :- Literal(date.3, " ");
    var time :- ParseTime(s1);
    var s2 :- Literal(time.3, " ");
    var offset :- ParseZone(s2);
    Success((weekday.0, DateTime(date.2, date.1, date.0, time.0, time.1, time.2, offset)))
  }

  /** `OffsetDateTime::parse(text, Rfc2822)`: the text must be a whole date-time of the grammar
      above naming a real calendar day from 1900 on, and a day name, when given, must be the
      day-of-week of that date. */
  function Parse(s: string): (r: Result<OffsetDateTime, DateError>)
    ensures r.Success? ==> r.value.year >= 1900
    ensures r.Success? ==> ParseFields(s).Success? && r.value == ParseFields(s).value.1
    ensures r.Success? && ParseFields(s).value.0.Some? ==>
      ParseFields(s).value.0.value == WeekdayIndex(r.value.year, r.value.month, r.value.day)
  {
    var fields :- ParseFields(s);
    Check(fields.0, fields.1)
  }

  /** The semantic checks on the fields as written: a year from 1900 on, a real date-time,
      and a day name agreeing with the date. */
  function Check(weekday: Option<nat>, d: DateTime): (r: Result<OffsetDateTime, DateError>)
    ensures r.Success? <==> d.year >= 1900 && Valid(d) && (weekday.Some? ==> weekday.value == WeekdayIndex(d.year, d.month, d.day))
    ensures r.Success? ==> r.value == d
  {
    if d.year < 1900 then Failure(InvalidComponent("year"))
    else if !Valid(d) then Failure(InvalidComponent("date-time"))
    else if weekday.Some? && weekday.value != WeekdayIndex(d.year, d.month, d.day) then
      Failure(InconsistentComponents)
    else Success(d)
  }

  // ---------------------------------------------------------------- round trip

  lemma NumberOfPad(n: nat, width: nat, component: string, rest: string)
    requires n < Pow10(width)
    ensures Number(Pad(n, width) + rest, width, component) == Success((n, rest))
  {
    var s := Pad(n, width) + rest;
    assert s[..width] == Pad(n, width);
    PadValue(n, width);
  }

  lemma LiteralOf(lit: string, rest: string)
    ensures Literal(lit + rest, lit) == Success(rest)
  {
    assert (lit + rest)[..|lit|] == lit;
  }

  lemma IndexOfDistinct(names: seq<string>, i: nat)
    requires i < |names| && NamesDistinct(names)
    ensures IndexOf(names, names[i]) == Some(i)
  {
  }

  lemma LowerOf3(s: string, t: string)
    requires |s| == 3 && |t| == 3
    requires Lower(s[0]) == t[0] && Lower(s[1]) == t[1] && Lower(s[2]) == t[2]
    ensures LowerString(s) == t
  {
  }

  /** A table is distinct in every case when its lower-case forms are pairwise different. */
  lemma DistinctByLowered(names: seq<string>, lowered: seq<string>)
    requires |names| == |lowered|
    requires forall i :: 0 <= i < |names| ==> LowerString(names[i]) == lowered[i]
    requires forall j, k :: 0 <= j < k < |lowered| ==> lowered[j] != lowered[k]
    ensures NamesDistinct(names)
  {
  }

  lemma MonthsDistinct()
    ensures NamesDistinct(MONTHS)
  {
    var lowered := ["jan", "feb", "mar", "apr", "may", "jun", "jul", "aug", "sep", "oct", "nov", "dec"];
    forall i | 0 <= i < |MONTHS|
      ensures LowerString(MONTHS[i]) == lowered[i]
    {
      LowerOf3(MONTHS[i], lowered[i]);
    }
    DistinctByLowered(MONTHS, lowered);
  }

  lemma WeekdaysDistinct()
    ensures NamesDistinct(WEEKDAYS)
  {
    var lowered := ["mon", "tue", "wed", "thu", "fri", "sat", "sun"];
    forall i | 0 <= i < |WEEKDAYS|
      ensures LowerString(WEEKDAYS[i]) == lowered[i]
    {
      LowerOf3(WEEKDAYS[i], lowered[i]);
    }
    DistinctByLowered(WEEKDAYS, lowered);
  }

  lemma NameOf(names: seq<string>, i: nat, component: string, rest: string)
    requires i < |names| && |names[i]| == 3 && NamesDistinct(names)
    ensures Name(names[i] + rest, names, component) == Success((i, rest))
  {
    var s := names[i] + rest;
    assert s[..3] == names[i];
    IndexOfDistinct(names, i);
  }

  lemma MonthNameOf(i: nat, rest: string)
    requires i < |MONTHS|
    ensures Name(MONTHS[i] + rest, MONTHS, "month") == Success((i, rest))
  {
    MonthsDistinct();
    NameOf(MONTHS, i, "month", rest);
  }

  lemma WeekdayNameOf(i: nat)
    requires i < |WEEKDAYS|
    ensures IndexOf(WEEKDAYS, WEEKDAYS[i]) == Some(i)
  {
    WeekdaysDistinct();
    IndexOfDistinct(WEEKDAYS, i);
  }

  lemma ParseFormattedWeekday(w: nat, body: string)
    requires w < |WEEKDAYS|
    ensures ParseWeekday(WEEKDAYS[w] + (", " + body)) == Success((Some(w), body))
  {
    var s := WEEKDAYS[w] + (", " + body);
    assert s[..3] == WEEKDAYS[w] && s[3] == ',' && s[4] == ' ' && s[5..] == body;
    WeekdayNameOf(w);
  }

  lemma ParseFormattedDate(d: OffsetDateTime, rest: string)
    requires d.year >= 1900
    ensures ParseDate(FormatDate(d) + rest) == Success((d.day, d.month, d.year, rest))
  {
    var s3 := Pad(d.year, 4) + rest;
    var s2 := MONTHS[d.month - 1] + (" " + s3);
    var s1 := " " + s2;
    var s := FormatDate(d) + rest;
    assert s == Pad(d.day, 2) + s1;
    NumberOfPad(d.day, 2, "day", s1);
    assert DayOfMonth(s) == Success((d.day, s1));
    LiteralOf(" ", s2);
    MonthNameOf(d.month - 1, " " + s3);
    LiteralOf(" ", s3);
    NumberOfPad(d.year, 4, "year", rest);
  }

  lemma ParseFormattedTime(d: OffsetDateTime, rest: string)
    ensures ParseTime(FormatTime(d) + rest) == Success((d.hour, d.minute, d.second, rest))
  {
    var s3 := Pad(d.second, 2) + rest;
    var s2 := Pad(d.minute, 2) + (":" + s3);
    var s1 := ":" + s2;
    assert FormatTime(d) + rest == Pad(d.hour, 2) + s1;
    NumberOfPad(d.hour, 2, "hour", s1);
    LiteralOf(":", s2);
    NumberOfPad(d.minute, 2, "minute", ":" + s3);
    assert (":" + s3)[1..] == s3;
    NumberOfPad(d.second, 2, "second", rest);
  }

  lemma ParseFormattedZone(offset: int)
    requires -(MAX_OFFSET as int) <= offset <= MAX_OFFSET
    ensures ParseZone(FormatZone(offset)) == Success(offset)
  {
    var a := if offset < 0 then -offset else offset;
    var s := FormatZone(offset);
    assert s[1..] == Pad(a / 60, 2) + Pad(a % 60, 2);
    NumberOfPad(a / 60, 2, "offset hour", Pad(a % 60, 2));
    NumberOfPad(a % 60, 2, "offset minute", []);
    assert Pad(a % 60, 2) + [] == Pad(a % 60, 2);
  }

  /** Reading back what Format wrote gives the same date-time: the text a `PubDate` is
      serialized to deserializes to that `PubDate`. */
  /** Whatever the day-name step leaves, when it leaves the written body of `d`, the fields
      read are those of `d`. */
  lemma ParseBodyFields(d: OffsetDateTime, w: Option<nat>, s: string)
    requires d.year >= 1900
    requires ParseWeekday(s) == Success((w, FormatBody(d)))
    ensures ParseFields(s) == Success((w, d))
  {
    var zone := FormatZone(d.offset);
    var afterTime := " " + zone;
    var afterDate := " " + (FormatTime(d) + afterTime);
    assert FormatBody(d) == FormatDate(d) + afterDate;
    ParseFormattedDate(d, afterDate);
    LiteralOf(" ", FormatTime(d) + afterTime);
    ParseFormattedTime(d, afterTime);
    LiteralOf(" ", zone);
    ParseFormattedZone(d.offset);
  }

  lemma {:induction false} ParseFormat(d: OffsetDateTime)
    requires d.year >= 1900
    ensures Format(d).Success? && Parse(Format(d).value) == Success(d)
  {
    var w := WeekdayIndex(d.year, d.month, d.day);
    ParseFormattedWeekday(w, FormatBody(d));
    ParseBodyFields(d, Some(w), Format(d).value);
  }

  /** A date-time written with any day name is accepted exactly when that name is the date's
      day of week, and is otherwise `InconsistentComponents`. */
  lemma {:induction false} ParseChecksDayName(d: OffsetDateTime, w: nat)
    requires d.year >= 1900 && w < |WEEKDAYS|
    ensures Parse(WEEKDAYS[w] + (", " + FormatBody(d))) ==
      if w == WeekdayIndex(d.year, d.month, d.day) then Success(d) else Failure(InconsistentComponents)
  {
    var s := WEEKDAYS[w] + (", " + FormatBody(d));
    ParseFormattedWeekday(w, FormatBody(d));
    ParseBodyFields(d, Some(w), s);
  }

  /** The day name is optional: the text without it reads as the same date-time. */
  lemma {:induction false} ParseWithoutDayName(d: OffsetDateTime)
    requires d.year >= 1900
    ensures Parse(FormatBody(d)) == Success(d)
  {
    BodyHasNoDayName(d);
    ParseBodyFields(d, None, FormatBody(d));
  }

  lemma BodyHasNoDayName(d: OffsetDateTime)
    requires d.year >= 0
    ensures ParseWeekday(FormatBody(d)) == Success((None, FormatBody(d)))
  {
    var month := MONTHS[d.month - 1];
    assert month[0] != ',';
    assert FormatBody(d)[3] == month[0] by {
      assert FormatBody(d) == Pad(d.day, 2) + (" " + (month + (" " + Pad(d.year, 4)))) + (" " + (FormatTime(d) + (" " + FormatZone(d.offset))));
    }
  }

  /** Parsing is canonical: any accepted text and the text Format writes for its value denote
      the same date-time. */
  lemma ParseIsCanonical(s: string)
    requires Parse(s).Success?
    ensures Format(Parse(s).value).Success?
    ensures Parse(Format(Parse(s).value).value) == Parse(s)
  {
    ParseFormat(Parse(s).value);
  }

  /** The calendar day after a date. */
  function NextDay(year: int, month: nat, day: nat): (r: (int, nat, nat))
    requires 1 <= month <= 12 && 1 <= day <= DaysInMonth(year, month)
    ensures 1 <= r.1 <= 12 && 1 <= r.2 <= DaysInMonth(r.0, r.1)
  {
    if day < DaysInMonth(year, month) then (year, month, day + 1)
    else if month < 12 then (year, month + 1, 1)
    else (year + 1, 1, 1)
  }

  lemma DaysInYear(year: int)
    ensures DaysBeforeMonth(year, 12) + DaysInMonth(year, 12) == if IsLeapYear(year) then 366 else 365
  {
    assert DaysBeforeMonth(year, 2) == 31;
    assert DaysBeforeMonth(year, 3) == 31 + DaysInMonth(year, 2);
    assert DaysBeforeMonth(year, 4) == DaysBeforeMonth(year, 3) + 31;
    assert DaysBeforeMonth(year, 5) == DaysBeforeMonth(year, 4) + 30;
    assert DaysBeforeMonth(year, 6) == DaysBeforeMonth(year, 5) + 31;
    assert DaysBeforeMonth(year, 7) == DaysBeforeMonth(year, 6) + 30;
    assert DaysBeforeMonth(year, 8) == DaysBeforeMonth(year, 7) + 31;
    assert DaysBeforeMonth(year, 9) == DaysBeforeMonth(year, 8) + 31;
    assert DaysBeforeMonth(year, 10) == DaysBeforeMonth(year, 9) + 30;
    assert DaysBeforeMonth(year, 11) == DaysBeforeMonth(year, 10) + 31;
    assert DaysBeforeMonth(year, 12) == DaysBeforeMonth(year, 11) + 30;
  }

  lemma QuotientStep4(year: int)
    ensures year / 4 - (year - 1) / 4 == if year % 4 == 0 then 1 else 0
  {
  }

  lemma QuotientStep100(year: int)
    ensures year / 100 - (year - 1) / 100 == if year % 100 == 0 then 1 else 0
  {
  }

  lemma QuotientStep400(year: int)
    ensures year / 400 - (year - 1) / 400 == if year % 400 == 0 then 1 else 0
  {
  }

  /** Every multiple of 400 is one of 100, and every multiple of 100 one of 4. */
  lemma Multiples(year: int)
    ensures year % 400 == 0 ==> year % 100 == 0
    ensures year % 100 == 0 ==> year % 4 == 0
  {
    var k := year / 400;
    var m := year / 100;
    assert year == 400 * k + year % 400;
    assert year == 100 * m + year % 100;
    if year % 400 == 0 {
      assert year == 100 * (4 * k) + 0;
    }
    if year % 100 == 0 {
      assert year == 4 * (25 * m) + 0;
    }
  }

  lemma LeapYearsStep(year: nat)
    requires year >= 1
    ensures LeapYearsThrough(year) - LeapYearsThrough(year - 1) == if IsLeapYear(year) then 1 else 0
  {
    QuotientStep4(year);
    QuotientStep100(year);
    QuotientStep400(year);
    Multiples(year);
  }

  /** The day after a date has the next day number. */
  lemma DayNumberOfNextDay(year: int, month: nat, day: nat)
    requires year >= 1900 && 1 <= month <= 12 && 1 <= day <= DaysInMonth(year, month)
    ensures DayNumber(NextDay(year, month, day).0, NextDay(year, month, day).1, NextDay(year, month, day).2)
      == DayNumber(year, month, day) + 1
  {
    if day == DaysInMonth(year, month) && month == 12 {
      DaysInYear(year);
      LeapYearsStep(year);
    }
  }

  /** Consecutive days have consecutive day names, so the day name Format writes and the one
      Parse demands follow the calendar from 1 January 1900, a Monday. */
  lemma WeekdayOfNextDay(year: int, month: nat, day: nat)
    requires year >= 1900 && 1 <= month <= 12 && 1 <= day <= DaysInMonth(year, month)
    ensures WeekdayIndex(NextDay(year, month, day).0, NextDay(year, month, day).1, NextDay(year, month, day).2)
      == (WeekdayIndex(year, month, day) + 1) % 7
  {
    DayNumberOfNextDay(year, month, day);
    WeekStep(DayNumber(year, month, day));
  }

  lemma WeekStep(n: int)
    ensures (n + 1) % 7 == (n % 7 + 1) % 7
  {
  }

  /** Day number 0, 1 January 1900, is a Monday: the base the day names are counted from. */
  lemma WeekdayOfFirstDay()
    ensures WEEKDAYS[WeekdayIndex(1900, 1, 1)] == "Mon"
  {
  }

  /** A name is looked up by its letters alone, whatever their case. */
  lemma {:induction false} IndexOfIgnoresCase(names: seq<string>, a: string, b: string)
    requires SameName(a, b)
    ensures IndexOf(names, a) == IndexOf(names, b)
  {
    if names != [] {
      IndexOfIgnoresCase(names[1..], a, b);
    }
  }

  /** Day and month names are read in any case: "tue" is Tuesday and "jUL" is July. */
  lemma NamesInAnyCase(rest: string)
    ensures ParseWeekday("tue, " + rest) == Success((Some(1), rest))
    ensures Name("jUL" + rest, MONTHS, "month") == Success((6, rest))
  {
    var w := "tue, " + rest;
    assert w[..3] == "tue" && w[3] == ',' && w[4] == ' ' && w[5..] == rest;
    LowerOf3("tue", "tue");
    LowerOf3(WEEKDAYS[1], "tue");
    IndexOfIgnoresCase(WEEKDAYS, "tue", WEEKDAYS[1]);
    WeekdayNameOf(1);
    var m := "jUL" + rest;
    assert m[..3] == "jUL" && m[3..] == rest;
    LowerOf3("jUL", "jul");
    LowerOf3(MONTHS[6], "jul");
    IndexOfIgnoresCase(MONTHS, "jUL", MONTHS[6]);
    MonthNameOf(6, rest);
  }

  /** The example date of Appendix A of RFC 2822, "Tue, 1 Jul 2003 10:52:37 +0200": 1 July 2003
      was a Tuesday. */
  lemma WeekdayOfSample()
    ensures WEEKDAYS[WeekdayIndex(2003, 7, 1)] == "Tue"
  {
  }
}
