/** The search for a schedule's next activation time, on a civil calendar with a fixed offset of whole
    hours. */
module CronSpec {

  datatype Option<+T> = None | Some(value: T)

  // ---- The calendar ----

  predicate Leap(year: int) {
    year % 4 == 0 && (year % 100 != 0 || year % 400 == 0)
  }

  function DaysIn(year: int, month: int): (n: nat)
    ensures 28 <= n <= 31
  {
    if month == 2 then if Leap(year) then 29 else 28
    else if month == 4 || month == 6 || month == 9 || month == 11 then 30 else 31
  }

  /** A time to the second. Fractions of a second only matter at the start of the search. */
  datatype Time = Time(year: int, month: int, day: int, hour: int, minute: int, second: int)

  predicate Civil(t: Time) {
    && t.year >= 1 && 1 <= t.month <= 12 && 1 <= t.day <= DaysIn(t.year, t.month)
    && 0 <= t.hour < 24 && 0 <= t.minute < 60 && 0 <= t.second < 60
  }

  function DaysBeforeYear(year: int): int {
    365 * (year - 1) + (year - 1) / 4 - (year - 1) / 100 + (year - 1) / 400
  }

  function DaysBeforeMonth(year: int, month: int): int
    decreases month
  {
    if month <= 1 then 0 else DaysBeforeMonth(year, month - 1) + DaysIn(year, month - 1)
  }

  /** The number of the day, counted from the first day of year 1, which was a Monday. */
  function DayNumber(t: Time): int {
    DaysBeforeYear(t.year) + DaysBeforeMonth(t.year, t.month) + t.day
  }

  function Weekday(t: Time): int {
    DayNumber(t) % 7
  }

  /** Seconds since the start of the calendar. */
  function Seconds(t: Time): int {
    DayNumber(t) * 86400 + t.hour * 3600 + t.minute * 60 + t.second
  }

  function NextMonth(t: Time): Time {
    if t.month == 12 then t.(year := t.year + 1, month := 1) else t.(month := t.month + 1)
  }

  function AddDay(t: Time): Time {
    if t.day < DaysIn(t.year, t.month) then t.(day := t.day + 1) else NextMonth(t).(day := 1)
  }

  /** A month later. A day the next month does not have runs over into the month after. */
  function AddMonth(t: Time): Time {
    var n := NextMonth(t);
    if t.day <= DaysIn(n.year, n.month) then n else NextMonth(n).(day := t.day - DaysIn(n.year, n.month))
  }

  function AddHour(t: Time): Time {
    if t.hour < 23 then t.(hour := t.hour + 1) else AddDay(t).(hour := 0)
  }

  function AddMinute(t: Time): Time {
    if t.minute < 59 then t.(minute := t.minute + 1) else AddHour(t).(minute := 0)
  }

  function AddSecond(t: Time): Time {
    if t.second < 59 then t.(second := t.second + 1) else AddMinute(t).(second := 0)
  }

  lemma YearLength(year: int)
    requires year >= 1
    ensures DaysBeforeYear(year + 1) == DaysBeforeYear(year) + if Leap(year) then 366 else 365
  {
    assert year / 4 == (year - 1) / 4 + if year % 4 == 0 then 1 else 0;
    assert year / 100 == (year - 1) / 100 + if year % 100 == 0 then 1 else 0;
    assert year / 400 == (year - 1) / 400 + if year % 400 == 0 then 1 else 0;
  }

  lemma MonthLengths(year: int)
    ensures DaysBeforeMonth(year, 12) + 31 == if Leap(year) then 366 else 365
  {
    assert DaysBeforeMonth(year, 4) == DaysBeforeMonth(year, 3) + 31 == DaysBeforeMonth(year, 2) + DaysIn(year, 2) + 31;
    assert DaysBeforeMonth(year, 8) == DaysBeforeMonth(year, 7) + 31 == DaysBeforeMonth(year, 6) + 30 + 31;
    assert DaysBeforeMonth(year, 6) == DaysBeforeMonth(year, 5) + 31 == DaysBeforeMonth(year, 4) + 30 + 31;
    assert DaysBeforeMonth(year, 12) == DaysBeforeMonth(year, 11) + 30 == DaysBeforeMonth(year, 10) + 31 + 30;
    assert DaysBeforeMonth(year, 10) == DaysBeforeMonth(year, 9) + 30 == DaysBeforeMonth(year, 8) + 31 + 30;
  }

  /** The months of a year, and where they and the weekdays stand: 2 January 2015 was a Friday, and
      1 March 2016 came two days after 28 February. */
  lemma KnownDays(year: int)
    ensures DaysIn(year, 1) == DaysIn(year, 3) == DaysIn(year, 5) == DaysIn(year, 7) == DaysIn(year, 8) == 31
    ensures DaysIn(year, 4) == DaysIn(year, 6) == DaysIn(year, 9) == DaysIn(year, 11) == 30
    ensures DaysIn(year, 10) == DaysIn(year, 12) == 31 && DaysIn(2015, 2) == 28 && DaysIn(2016, 2) == 29
    ensures DaysIn(1900, 2) == 28 && DaysIn(2000, 2) == 29
    ensures Weekday(Time(2015, 1, 2, 0, 0, 0)) == 5
    ensures DayNumber(Time(2016, 3, 1, 0, 0, 0)) - DayNumber(Time(2016, 2, 28, 0, 0, 0)) == 2
  {
    assert DaysBeforeMonth(2016, 3) == DaysBeforeMonth(2016, 2) + 29;
  }

  /** The first of a month is the month's length after the first of the one before. */
  lemma MonthStep(t: Time)
    requires Civil(t) && t.day == 1
    ensures Civil(NextMonth(t)) && DayNumber(NextMonth(t)) == DayNumber(t) + DaysIn(t.year, t.month)
  {
    YearLength(t.year);
    MonthLengths(t.year);
  }

  /** The next day has the next number, and so the next weekday. */
  lemma DayStep(t: Time)
    requires Civil(t)
    ensures Civil(AddDay(t)) && DayNumber(AddDay(t)) == DayNumber(t) + 1
    ensures Weekday(AddDay(t)) == (Weekday(t) + 1) % 7
  {
    if t.day == DaysIn(t.year, t.month) { MonthStep(t.(day := 1)); }
  }

  /** The clock does not matter to the day. */
  lemma SameDay(t: Time, u: Time)
    requires t.year == u.year && t.month == u.month && t.day == u.day
    ensures DayNumber(t) == DayNumber(u) && Weekday(t) == Weekday(u)
  {
  }

  lemma HourStep(t: Time)
    requires Civil(t)
    ensures Civil(AddHour(t)) && Seconds(AddHour(t)) == Seconds(t) + 3600
  {
    hide DaysBeforeYear, DaysBeforeMonth;
    DayStep(t);
    SameDay(AddDay(t), AddDay(t).(hour := 0));
  }

  lemma AddHourKeeps(t: Time)
    ensures AddHour(t).minute == t.minute && AddHour(t).second == t.second
  {
  }

  lemma MinuteStep(t: Time)
    requires Civil(t)
    ensures Civil(AddMinute(t)) && Seconds(AddMinute(t)) == Seconds(t) + 60
  {
    hide DayNumber, AddHour, DaysIn;
    if t.minute < 59 {
      SameDay(t, AddMinute(t));
    } else {
      HourStep(t);
      AddHourKeeps(t);
      SameDay(AddHour(t), AddMinute(t));
    }
  }

  lemma AddMinuteKeeps(t: Time)
    ensures AddMinute(t).second == t.second
  {
  }

  lemma SecondStep(t: Time)
    requires Civil(t)
    ensures Civil(AddSecond(t)) && Seconds(AddSecond(t)) == Seconds(t) + 1
  {
    hide DayNumber, AddMinute, DaysIn;
    if t.second < 59 {
      SameDay(t, AddSecond(t));
    } else {
      MinuteStep(t);
      AddMinuteKeeps(t);
      SameDay(AddMinute(t), AddSecond(t));
    }
  }

  /** The additions are additions of seconds. */
  lemma Additions(t: Time)
    requires Civil(t)
    ensures Civil(AddHour(t)) && Seconds(AddHour(t)) == Seconds(t) + 3600
    ensures Civil(AddMinute(t)) && Seconds(AddMinute(t)) == Seconds(t) + 60
    ensures Civil(AddSecond(t)) && Seconds(AddSecond(t)) == Seconds(t) + 1
  {
    HourStep(t);
    MinuteStep(t);
    SecondStep(t);
  }

  // ---- Order ----

  predicate SameDate(t: Time, u: Time) {
    t.year == u.year && t.month == u.month && t.day == u.day
  }

  predicate SameHour(t: Time, u: Time) {
    SameDate(t, u) && t.hour == u.hour
  }

  lemma {:induction false} YearsBefore(a: int, b: int)
    requires 1 <= a <= b
    ensures DaysBeforeYear(a) + 365 * (b - a) <= DaysBeforeYear(b)
    decreases b - a
  {
    if a < b {
      YearsBefore(a, b - 1);
      YearLength(b - 1);
    }
  }

  lemma {:induction false} MonthsBefore(year: int, a: int, b: int)
    requires 1 <= a <= b <= 12
    ensures DaysBeforeMonth(year, a) + 28 * (b - a) <= DaysBeforeMonth(year, b) <= DaysBeforeMonth(year, a) + 31 * (b - a)
    decreases b
  {
    if a < b { MonthsBefore(year, a, b - 1); }
  }

  lemma YearEnd(t: Time)
    requires Civil(t)
    ensures DayNumber(t) <= DaysBeforeYear(t.year + 1)
  {
    hide DaysBeforeYear;
    YearLength(t.year);
    MonthLengths(t.year);
    if t.month < 12 { MonthsBefore(t.year, t.month + 1, 12); }
  }

  /** A later month has later days. */
  lemma MonthOrder(t: Time, u: Time)
    requires Civil(t) && Civil(u) && (t.year < u.year || (t.year == u.year && t.month < u.month))
    ensures DayNumber(t) < DayNumber(u)
  {
    hide DaysBeforeYear, DaysIn;
    if t.year < u.year {
      YearEnd(t);
      YearsBefore(t.year + 1, u.year);
      MonthsBefore(u.year, 1, u.month);
    } else {
      MonthsBefore(t.year, t.month + 1, u.month);
    }
  }

  /** The day number fixes the date. */
  lemma DateUnique(t: Time, u: Time)
    requires Civil(t) && Civil(u) && DayNumber(t) == DayNumber(u)
    ensures SameDate(t, u)
  {
    hide DaysBeforeYear, DaysIn;
    if t.year < u.year || (t.year == u.year && t.month < u.month) { MonthOrder(t, u); }
    if u.year < t.year || (t.year == u.year && u.month < t.month) { MonthOrder(u, t); }
  }

  function HourNumber(t: Time): int {
    DayNumber(t) * 24 + t.hour
  }

  lemma HourUnique(t: Time, u: Time)
    requires Civil(t) && Civil(u) && HourNumber(t) == HourNumber(u)
    ensures SameHour(t, u)
  {
    hide DayNumber;
    DateUnique(t, u);
  }

  // ---- The schedule ----

  /** The bits of one field, and whether it was written with a star. */
  datatype Field = Field(bits: set<int>, star: bool)

  datatype Spec = Spec(second: Field, minute: Field, hour: Field, dom: Field, month: Field, dow: Field)

  /** Both day fields must match if one of them has a star, else either. */
  predicate DayMatches(s: Spec, t: Time) {
    var domMatch, dowMatch := t.day in s.dom.bits, Weekday(t) in s.dow.bits;
    if s.dom.star || s.dow.star then domMatch && dowMatch else domMatch || dowMatch
  }

  /** Month, day and hour of the schedule. */
  predicate DateMatches(s: Spec, t: Time) {
    t.month in s.month.bits && DayMatches(s, t) && t.hour in s.hour.bits
  }

  predicate ClockMatches(s: Spec, t: Time) {
    t.minute in s.minute.bits && t.second in s.second.bits
  }

  /** A time of the schedule. */
  predicate Due(s: Spec, u: Time) {
    Civil(u) && DateMatches(s, u) && ClockMatches(s, u)
  }

  const YEARS := 5

  /** From this start the search cuts the seconds, or the minutes and seconds, back to 0 after it had
      matched them, and has no reason to come back to them. */
  ghost predicate CutsBack(s: Spec, start: Time) {
    && start.month in s.month.bits && DayMatches(s, start) && start.second in s.second.bits
    && if start.minute in s.minute.bits then
        && start.hour !in s.hour.bits && (exists h | start.hour < h < 24 :: h in s.hour.bits)
        && !(0 in s.second.bits && 0 in s.minute.bits)
      else
        && (exists m | start.minute < m < 60 :: m in s.minute.bits)
        && (exists h | start.hour <= h < 24 :: h in s.hour.bits)
        && 0 !in s.second.bits
  }

  /** It happens: at 10 minutes and 30 seconds past every hour, asked at 0:05:29, the search starts at
      0:05:30, where the seconds match, and cuts them back when it advances the minutes. */
  lemma CutBackHappens(year: int, any: Field)
    requires year >= 1 && 0 in any.bits && 1 in any.bits && any.star && Weekday(Time(year, 1, 1, 0, 5, 30)) in any.bits
    ensures CutsBack(Spec(Field({30}, false), Field({10}, false), any, any, any, any), AddSecond(Time(year, 1, 1, 0, 5, 29)))
  {
    var s := Spec(Field({30}, false), Field({10}, false), any, any, any, any);
    var start := Time(year, 1, 1, 0, 5, 30);
    assert 10 in s.minute.bits && 0 in s.hour.bits;
    assert start.minute < 10 < 60 && start.hour <= 0 < 24;
  }

  ghost predicate Has(bits: set<int>, a: int, b: int) {
    exists x | a <= x < b :: x in bits
  }

  predicate Dated(s: Spec, t: Time) {
    t.month in s.month.bits && DayMatches(s, t)
  }

  /** From this start the search carries a minute or second it found into a later minute or hour, where an
      earlier one is of the schedule as well. */
  ghost predicate PassesOver(s: Spec, start: Time) {
    var minute, hour := start.minute in s.minute.bits, start.hour in s.hour.bits;
    && Dated(s, start)
    && if start.second in s.second.bits then
        && !minute && !hour
        && Has(s.minute.bits, 0, start.minute) && Has(s.minute.bits, start.minute + 1, 60)
      else if Has(s.second.bits, start.second + 1, 60) then
        && !(minute && hour)
        && (Has(s.second.bits, 0, start.second)
            || (!hour && Has(s.minute.bits, 0, start.minute) && Has(s.minute.bits, start.minute, 60)))
      else
        && !hour
        && Has(s.minute.bits, 0, start.minute + 1) && Has(s.minute.bits, start.minute + 1, 60)
  }

  /** There is a time of the schedule after `t0` in the years looked at. */
  ghost predicate DueWithin(s: Spec, t0: Time) {
    exists u | Due(s, u) :: Seconds(u) > Seconds(t0) && u.year <= AddSecond(t0).year + 5
  }

  /** It happens, with nothing cut back: at 30 minutes past every hour, at 10 and at 40 seconds, asked at
      0:05:19, the search finds second 40 first and carries it along. */
  lemma PassOverHappens(year: int, any: Field)
    requires year >= 1 && 0 in any.bits && 1 in any.bits && any.star && Weekday(Time(year, 1, 1, 0, 5, 19)) in any.bits
    ensures var s, t0 := Spec(Field({10, 40}, false), Field({30}, false), any, any, any, any), Time(year, 1, 1, 0, 5, 19);
      PassesOver(s, AddSecond(t0)) && DueWithin(s, t0) && !CutsBack(s, AddSecond(t0))
  {
    var s, t0 := Spec(Field({10, 40}, false), Field({30}, false), any, any, any, any), Time(year, 1, 1, 0, 5, 19);
    var u := Time(year, 1, 1, 0, 30, 10);
    SameDay(t0, u);
    SameDay(t0, AddSecond(t0));
    assert 10 in s.second.bits && 40 in s.second.bits;
    assert Due(s, u) && Seconds(u) > Seconds(t0);
  }

  function MonthStart(t: Time): Time {
    Time(t.year, t.month, 1, 0, 0, 0)
  }

  function DayStart(t: Time): Time {
    t.(hour := 0, minute := 0, second := 0)
  }

  // ---- What the search keeps ----

  /** The time is the start until a field was advanced, and later after that. */
  ghost predicate Kept(start: Time, t: Time, added: bool) {
    Civil(start) && Civil(t) && if added then Seconds(t) > Seconds(start) else t == start
  }

  ghost predicate InYears(start: Time, t: Time) {
    t.year <= start.year + YEARS
  }

  /** A time of the schedule that the search has passed over. */
  predicate Passed(s: Spec, start: Time, t: Time, u: Time) {
    Due(s, u) && Seconds(start) <= Seconds(u) < Seconds(t)
  }

  ghost predicate Ending(s: Spec, t: Time, u: Time) {
    SameHour(u, t) && t.minute in s.minute.bits && exists x | t.second <= x < 60 :: x in s.second.bits
  }

  /** If a time of the schedule was passed over, it was in the hour the search is in, and the search will
      end in that hour. */
  ghost predicate NonePassed(s: Spec, start: Time, t: Time) {
    forall u | Passed(s, start, t, u) :: Ending(s, t, u)
  }

  /** Just past midnight, with minutes and seconds cut back or of the schedule. */
  predicate Early(s: Spec, t: Time) {
    t.hour == 0 && (t.minute == 0 || t.minute in s.minute.bits) && (t.second == 0 || t.second in s.second.bits)
  }

  /** At the top: if a field was advanced, the month matches or has just begun, and nothing was or will
      be cut back. */
  ghost predicate AtTop(s: Spec, start: Time, t: Time, added: bool) {
    && Kept(start, t, added) && t.year <= start.year + YEARS + 1
    && (added ==> !CutsBack(s, start) && (t.month in s.month.bits || t.day == 1))
    && (added ==> (t.month in s.month.bits && DayMatches(s, t)) || Early(s, t))
    && NonePassed(s, start, t)
  }

  ghost predicate MonthFound(s: Spec, start: Time, t: Time, added: bool) {
    && Kept(start, t, added) && InYears(start, t) && t.month in s.month.bits
    && (added ==> !CutsBack(s, start) && (DayMatches(s, t) || Early(s, t)))
    && NonePassed(s, start, t)
  }

  ghost predicate DayFound(s: Spec, start: Time, t: Time, added: bool) {
    MonthFound(s, start, t, added) && DayMatches(s, t)
  }

  predicate UpToSecond(s: Spec, t: Time) {
    t.month in s.month.bits && DayMatches(s, t) && t.second in s.second.bits
  }

  /** Nothing is cut back yet, or the seconds are, from a start that matched up to the seconds. */
  ghost predicate SecondFound(s: Spec, start: Time, t: Time, added: bool, cut: bool) {
    && Kept(start, t, added) && InYears(start, t) && t.month in s.month.bits && DayMatches(s, t)
    && NonePassed(s, start, t)
    && if cut then
        && added && UpToSecond(s, start) && start.minute !in s.minute.bits
        && SameHour(t, start) && t.second == 0 && t.minute > start.minute
        && forall m | start.minute < m < t.minute :: m !in s.minute.bits
      else t.second in s.second.bits && (added ==> !CutsBack(s, start))
  }

  datatype Cut = NoCut | MinuteCut | HourCut

  ghost predicate HoursPassed(s: Spec, start: Time, t: Time) {
    start.hour <= t.hour && forall h | start.hour <= h < t.hour :: h !in s.hour.bits
  }

  /** What was cut back, and that no matching hour was passed since. */
  ghost predicate MinuteFound(s: Spec, start: Time, t: Time, added: bool, cut: Cut) {
    && Kept(start, t, added) && InYears(start, t) && t.month in s.month.bits && DayMatches(s, t)
    && NonePassed(s, start, t)
    && match cut
      case NoCut => ClockMatches(s, t) && (added ==> !CutsBack(s, start))
      case MinuteCut =>
        && added && UpToSecond(s, start) && start.minute !in s.minute.bits && SameDate(t, start)
        && t.second == 0 && t.minute in s.minute.bits && t.minute > start.minute && HoursPassed(s, start, t)
      case HourCut =>
        && added && UpToSecond(s, start) && start.minute in s.minute.bits && SameDate(t, start)
        && t.second == 0 && t.minute == 0 && t.hour > start.hour && HoursPassed(s, start, t)
  }

  // ---- Steps of the search ----

  lemma DayOnly(s: Spec, t: Time, u: Time)
    requires SameDate(t, u)
    ensures DayMatches(s, t) == DayMatches(s, u)
  {
    SameDay(t, u);
  }

  lemma WithinDay(t: Time, u: Time)
    requires Civil(t) && Civil(u) && SameDate(t, u)
    ensures Seconds(t) - Seconds(u) == (t.hour - u.hour) * 3600 + (t.minute - u.minute) * 60 + t.second - u.second
  {
    SameDay(t, u);
  }

  lemma FirstDay(t: Time)
    requires Civil(t)
    ensures DayNumber(t) == DayNumber(MonthStart(t)) + t.day - 1
  {
  }

  lemma MonthStepLater(t: Time)
    requires Civil(t)
    ensures Civil(MonthStart(t)) && AddMonth(MonthStart(t)) == NextMonth(MonthStart(t))
    ensures Civil(AddMonth(MonthStart(t))) && Seconds(AddMonth(MonthStart(t))) > Seconds(t)
    ensures t.day == 1 ==> Civil(AddMonth(t)) && Seconds(AddMonth(t)) > Seconds(t) && AddMonth(t) == NextMonth(t)
  {
    hide DaysBeforeYear, DaysBeforeMonth;
    MonthStep(MonthStart(t));
    FirstDay(t);
    if t.day == 1 {
      MonthStep(t);
    }
  }

  // ---- Nothing is passed over ----

  /** A turn from `t` to `v` goes on only if times before `t` do not end the search in this hour. */
  lemma PassOn(s: Spec, start: Time, t: Time, v: Time)
    requires Civil(t) && Civil(v) && Seconds(t) <= Seconds(v) && NonePassed(s, start, t)
    requires forall u | Passed(s, start, t, u) && Ending(s, t, u) :: Ending(s, v, u)
    requires forall u | Passed(s, t, v, u) :: Ending(s, v, u)
    ensures NonePassed(s, start, v)
  {
    hide Ending, Civil, Seconds, DateMatches, ClockMatches;
    forall u | Passed(s, start, v, u) ensures Ending(s, v, u) {
      if Seconds(u) < Seconds(t) { assert Passed(s, start, t, u); } else { assert Passed(s, t, v, u); }
    }
  }

  /** A time of the schedule before `t` is in its hour. */
  lemma PassedHour(s: Spec, start: Time, t: Time, u: Time)
    requires NonePassed(s, start, t) && Due(s, u) && Seconds(start) <= Seconds(u)
    ensures Seconds(u) < Seconds(t) ==> SameHour(u, t)
  {
    hide Due, Seconds;
    if Seconds(u) < Seconds(t) { assert Passed(s, start, t, u); }
  }

  /** On the date of `v`, before its time: only the hour of an early time was passed. */
  lemma EarlyEnding(s: Spec, v: Time, u: Time)
    requires Civil(v) && Civil(u) && Early(s, v) && SameDate(u, v) && Seconds(u) < Seconds(v) && ClockMatches(s, u)
    ensures Ending(s, v, u)
  {
    WithinDay(u, v);
    assert u.second in s.second.bits;
  }

  lemma MonthFirst(u: Time, n: Time)
    requires u.year == n.year && u.month == n.month
    ensures DayNumber(MonthStart(u)) == DayNumber(MonthStart(n))
  {
  }

  /** Dates from `t` up to the first of the next month are in the month of `t`. */
  lemma SameMonth(t: Time, u: Time)
    requires Civil(t) && Civil(u) && DayNumber(t) <= DayNumber(u) < DayNumber(NextMonth(t.(day := 1)))
    ensures u.year == t.year && u.month == t.month
  {
    var n := NextMonth(t.(day := 1));
    MonthStep(t.(day := 1));
    if u.year < t.year || (u.year == t.year && u.month < t.month) { MonthOrder(u, t); }
    if n.year < u.year || (n.year == u.year && n.month < u.month) { MonthOrder(n, u); }
    if n.year == u.year && n.month == u.month { FirstDay(u); FirstDay(n); MonthFirst(u, n); }
  }

  lemma DayOf(t: Time, u: Time)
    requires Civil(t) && Civil(u)
    ensures Seconds(u) <= Seconds(t) ==> DayNumber(u) <= DayNumber(t)
    ensures Seconds(u) < Seconds(t) ==> HourNumber(u) <= HourNumber(t)
  {
    hide DayNumber;
  }

  lemma EndingDate(s: Spec, t: Time, u: Time)
    requires Ending(s, t, u)
    ensures SameHour(u, t) && t.minute in s.minute.bits && t.month == u.month && DayMatches(s, t) == DayMatches(s, u)
  {
    DayOnly(s, t, u);
  }

  lemma MonthPasses(s: Spec, start: Time, t: Time, v: Time)
    requires NonePassed(s, start, t) && Civil(t) && Civil(v) && t.month !in s.month.bits && Seconds(t) <= Seconds(v)
    requires v.day == 1 && SameDate(v, NextMonth(t.(day := 1))) && Early(s, v)
    ensures NonePassed(s, start, v)
  {
    hide Seconds, DayMatches, Ending, Early, DaysIn;
    forall u | Passed(s, start, t, u) && Ending(s, t, u) ensures false {
      EndingDate(s, t, u);
    }
    forall u | Passed(s, t, v, u) ensures Ending(s, v, u) {
      DayOf(u, t);
      DayOf(v, u);
      SameDay(v, NextMonth(t.(day := 1)));
      if DayNumber(u) < DayNumber(v) {
        SameMonth(t, u);
        assert false;
      } else {
        DateUnique(u, v);
        EarlyEnding(s, v, u);
      }
    }
    PassOn(s, start, t, v);
  }

  lemma DayPasses(s: Spec, start: Time, t: Time, v: Time)
    requires NonePassed(s, start, t) && Civil(t) && Civil(v) && !DayMatches(s, t) && Seconds(t) <= Seconds(v)
    requires DayNumber(v) == DayNumber(t) + 1 && Early(s, v)
    ensures NonePassed(s, start, v)
  {
    hide Seconds, DayMatches, Ending, Early, DayNumber;
    forall u | Passed(s, start, t, u) && Ending(s, t, u) ensures false {
      EndingDate(s, t, u);
    }
    forall u | Passed(s, t, v, u) ensures Ending(s, v, u) {
      DayOf(u, t);
      DayOf(v, u);
      if DayNumber(u) == DayNumber(t) {
        DateUnique(u, t);
        DayOnly(s, t, u);
        assert false;
      } else {
        DateUnique(u, v);
        EarlyEnding(s, v, u);
      }
    }
    PassOn(s, start, t, v);
  }

  lemma NextSecond(t: Time)
    requires Civil(t)
    ensures t.second < 59 ==> AddSecond(t).second == t.second + 1
  {
  }

  lemma SecondUnique(t: Time, u: Time)
    requires Civil(t) && Civil(u) && Seconds(t) == Seconds(u)
    ensures t == u
  {
    hide DayNumber;
    HourUnique(t, u);
  }

  /** The next second is in the same minute, or starts a minute. */
  lemma SecondShape(t: Time)
    requires Civil(t)
    ensures var u := AddSecond(t);
      && (u.second != 0 ==> SameHour(u, t) && u.minute == t.minute)
      && (u.month == t.month || u.day == 1) && u.year <= t.year + 1
      && (SameDate(u, t) || (u.hour == 0 && u.minute == 0 && u.second == 0))
  {
  }

  lemma SecondPasses(s: Spec, start: Time, t: Time)
    requires NonePassed(s, start, t) && Civil(t) && t.second !in s.second.bits
    ensures NonePassed(s, start, AddSecond(t))
  {
    hide Seconds, DayMatches, AddSecond;
    var v := AddSecond(t);
    Additions(t);
    SecondShape(t);
    forall u | Passed(s, start, t, u) && Ending(s, t, u) ensures Ending(s, v, u) {
      var x :| t.second <= x < 60 && x in s.second.bits;
      NextSecond(t);
      assert v.second <= x < 60;
    }
    forall u | Passed(s, t, v, u) ensures false {
      SecondUnique(t, u);
    }
    PassOn(s, start, t, v);
  }

  lemma MinuteShape(t: Time)
    requires Civil(t)
    ensures var u := AddMinute(t);
      && (u.minute != 0 ==> SameHour(u, t) && u.minute == t.minute + 1) && u.second == t.second
      && (u.minute == 0 ==> t.minute == 59)
      && (u.month == t.month || u.day == 1) && u.year <= t.year + 1
      && (SameDate(u, t) || (u.hour == 0 && u.minute == 0))
  {
  }

  /** The minute a time is in: the hour and minute are fixed by the seconds. */
  lemma MinuteOf(b: Time, u: Time)
    requires Civil(b) && Civil(u) && Seconds(b) <= Seconds(u) < Seconds(b) + 60
    ensures (SameHour(u, b) && u.minute == b.minute)
      || (SameHour(u, AddMinute(b)) && u.minute == AddMinute(b).minute && u.second < b.second)
  {
    hide DayNumber, AddMinute;
    var v := AddMinute(b);
    MinuteStep(b);
    MinuteShape(b);
    if HourNumber(u) * 60 + u.minute == HourNumber(b) * 60 + b.minute {
      HourUnique(u, b);
    } else {
      assert HourNumber(u) * 60 + u.minute == HourNumber(v) * 60 + v.minute;
      HourUnique(u, v);
    }
  }

  lemma HourShape(t: Time)
    requires Civil(t)
    ensures var u := AddHour(t);
      && (u.hour != 0 ==> SameDate(u, t) && u.hour == t.hour + 1) && u.minute == t.minute && u.second == t.second
      && (u.hour == 0 ==> t.hour == 23)
      && (u.month == t.month || u.day == 1) && u.year <= t.year + 1
  {
  }

  lemma HourOf(b: Time, u: Time)
    requires Civil(b) && Civil(u) && Seconds(b) <= Seconds(u) < Seconds(b) + 3600
    ensures SameHour(u, b)
      || (SameHour(u, AddHour(b)) && u.minute * 60 + u.second < b.minute * 60 + b.second)
  {
    hide DayNumber, AddHour;
    var v := AddHour(b);
    HourStep(b);
    HourShape(b);
    if HourNumber(u) == HourNumber(b) {
      HourUnique(u, b);
    } else {
      assert HourNumber(u) == HourNumber(v);
      HourUnique(u, v);
    }
  }

  /** From `b`, which is `t` or `t` cut back to the start of its minute. */
  lemma MinutePasses(s: Spec, start: Time, t: Time, b: Time)
    requires NonePassed(s, start, t) && Civil(t) && t.minute !in s.minute.bits
    requires b == t.(second := b.second) && (b.second == 0 || (b == t && t.second in s.second.bits))
    ensures NonePassed(s, start, AddMinute(b))
  {
    hide Seconds, DayMatches, AddMinute, DaysIn;
    var v := AddMinute(b);
    Additions(b);
    MinuteShape(b);
    WithinDay(t, b);
    forall u | Passed(s, t, v, u) ensures Ending(s, v, u) {
      MinuteOf(b, u);
    }
    PassOn(s, start, t, v);
  }

  lemma HourPasses(s: Spec, start: Time, t: Time, b: Time)
    requires NonePassed(s, start, t) && Civil(t) && t.hour !in s.hour.bits
    requires b == t.(minute := b.minute, second := b.second)
    requires (b.minute == 0 && b.second == 0) || (b == t && t.minute in s.minute.bits && (t.second == 0 || t.second in s.second.bits))
    ensures NonePassed(s, start, AddHour(b))
  {
    hide Seconds, DayMatches, AddHour, DaysIn;
    var v := AddHour(b);
    Additions(b);
    HourShape(b);
    WithinDay(t, b);
    forall u | Passed(s, t, v, u) ensures Ending(s, v, u) {
      HourOf(b, u);
      assert u.second in s.second.bits;
    }
    PassOn(s, start, t, v);
  }

  /** One turn of the month loop. */
  lemma MonthTurn(s: Spec, start: Time, t: Time, added: bool)
    requires AtTop(s, start, t, added) && InYears(start, t) && t.month !in s.month.bits
    ensures var u := AddMonth(if added then t else MonthStart(t));
      AtTop(s, start, u, true) && Seconds(u) > Seconds(t) && (u.month != 1 ==> InYears(start, u))
  {
    hide Seconds, DayMatches, DaysIn, NonePassed;
    MonthStepLater(t);
    MonthPasses(s, start, t, AddMonth(if added then t else MonthStart(t)));
  }

  lemma DayTurnLater(t: Time)
    requires Civil(t)
    ensures Civil(AddDay(t)) && Seconds(AddDay(t)) > Seconds(t)
    ensures Civil(AddDay(DayStart(t))) && Seconds(AddDay(DayStart(t))) > Seconds(t)
    ensures DayNumber(AddDay(t)) == DayNumber(t) + 1 == DayNumber(AddDay(DayStart(t)))
  {
    hide DaysBeforeYear, DaysBeforeMonth;
    DayStep(t);
    DayStep(DayStart(t));
    SameDay(t, DayStart(t));
  }

  lemma DayTurn(s: Spec, start: Time, t: Time, added: bool)
    requires MonthFound(s, start, t, added) && !DayMatches(s, t)
    ensures var u := AddDay(if added then t else DayStart(t));
      && AtTop(s, start, u, true) && Seconds(u) > Seconds(t)
      && (u.day != 1 ==> MonthFound(s, start, u, true))
  {
    hide Seconds, DayMatches, DaysIn, NonePassed, DayNumber;
    DayTurnLater(t);
    DayPasses(s, start, t, AddDay(if added then t else DayStart(t)));
  }

  lemma SecondTurn(s: Spec, start: Time, t: Time, added: bool)
    requires DayFound(s, start, t, added) && t.second !in s.second.bits
    ensures var u := AddSecond(t);
      && Seconds(u) > Seconds(t)
      && (u.second == 0 ==> AtTop(s, start, u, true))
      && (u.second != 0 ==> DayFound(s, start, u, true))
  {
    hide Seconds, DayMatches, DaysIn, AddSecond, NonePassed;
    Additions(t);
    SecondShape(t);
    SecondPasses(s, start, t);
    if SameDate(AddSecond(t), t) { DayOnly(s, AddSecond(t), t); }
  }

  lemma MinuteTurn(s: Spec, start: Time, t: Time, added: bool, cut: bool)
    requires SecondFound(s, start, t, added, cut) && t.minute !in s.minute.bits
    ensures var u := AddMinute(if added then t else t.(second := 0));
      && Seconds(u) > Seconds(t)
      && (u.minute == 0 ==> AtTop(s, start, u, true))
      && (u.minute != 0 ==> SecondFound(s, start, u, true, cut || !added))
  {
    hide Seconds, DayMatches, DaysIn, AddMinute, NonePassed;
    var b := if added then t else t.(second := 0);
    Additions(b);
    MinuteShape(b);
    WithinDay(t, b);
    var u := AddMinute(b);
    MinutePasses(s, start, t, b);
    if SameDate(u, t) { DayOnly(s, u, t); }
  }

  lemma HourTurn(s: Spec, start: Time, t: Time, added: bool, cut: Cut)
    requires MinuteFound(s, start, t, added, cut) && t.hour !in s.hour.bits
    ensures var u := AddHour(if added then t else t.(minute := 0, second := 0));
      && Seconds(u) > Seconds(t)
      && (u.hour == 0 ==> AtTop(s, start, u, true))
      && (u.hour != 0 ==> MinuteFound(s, start, u, true, if added then cut else HourCut))
  {
    hide Seconds, DayMatches, DaysIn, AddHour, NonePassed;
    var b := if added then t else t.(minute := 0, second := 0);
    Additions(b);
    HourShape(b);
    WithinDay(t, b);
    var u := AddHour(b);
    HourPasses(s, start, t, b);
    if u.hour != 0 { DayOnly(s, u, t); }
  }

  // ---- The minutes and seconds carried along ----

  /** Nothing of the field from `a` up to `b`. */
  ghost predicate Gap(bits: set<int>, a: int, b: int) {
    a <= b && !Has(bits, a, b)
  }

  /** Where the search starts to look for its second. */
  ghost function SecondFrom(s: Spec, start: Time): int {
    if Dated(s, start) && start.second !in s.second.bits && Has(s.second.bits, start.second + 1, 60) then start.second else 0
  }

  /** Where the search starts to look for its minute. */
  ghost function MinuteFrom(s: Spec, start: Time): int {
    if !Dated(s, start) || (start.second in s.second.bits && start.minute in s.minute.bits) then 0
    else if start.second in s.second.bits || Has(s.second.bits, start.second + 1, 60) then start.minute
    else start.minute + 1
  }

  /** The search is still looking for a second in the minute it started in, and there is none. */
  ghost predicate FirstMinute(s: Spec, start: Time, t: Time) {
    && Dated(s, start) && Gap(s.second.bits, start.second, 60)
    && SameHour(t, start) && t.minute == start.minute && t.second > start.second
  }

  /** The second is the first one found, and so is the minute, unless no minute was left and the search
      took the first one of a later hour. */
  ghost predicate Carried(s: Spec, start: Time, t: Time) {
    && Gap(s.second.bits, SecondFrom(s, start), t.second)
    && (Gap(s.minute.bits, MinuteFrom(s, start), t.minute)
        || (Gap(s.minute.bits, MinuteFrom(s, start), 60) && Gap(s.minute.bits, 0, t.minute)))
  }

  ghost predicate Tracked(s: Spec, start: Time, t: Time, added: bool) {
    added ==>
      && !Due(s, start)
      && (Has(s.second.bits, 0, 60) ==> FirstMinute(s, start, t) || Carried(s, start, t))
  }

  lemma GapGrows(bits: set<int>, a: int, b: int)
    requires Gap(bits, a, b) && b !in bits
    ensures Gap(bits, a, b + 1)
  {
  }

  lemma NothingYet(s: Spec, start: Time, t: Time)
    requires t.minute == 0 && t.second == 0 && SecondFrom(s, start) == 0 == MinuteFrom(s, start)
    ensures Carried(s, start, t)
  {
  }

  lemma MonthTracked(s: Spec, start: Time, t: Time, added: bool)
    requires AtTop(s, start, t, added) && t.month !in s.month.bits && Tracked(s, start, t, added)
    ensures Tracked(s, start, AddMonth(if added then t else MonthStart(t)), true)
  {
    hide DayMatches, NonePassed, Seconds, Has, DaysIn;
    assert AddMonth(t).minute == t.minute && AddMonth(t).second == t.second;
    if !added { NothingYet(s, start, AddMonth(MonthStart(t))); }
  }

  lemma DayTracked(s: Spec, start: Time, t: Time, added: bool)
    requires MonthFound(s, start, t, added) && !DayMatches(s, t) && Tracked(s, start, t, added)
    ensures Tracked(s, start, AddDay(if added then t else DayStart(t)), true)
  {
    hide DayMatches, NonePassed, Seconds, Has, DaysIn;
    assert AddDay(t).minute == t.minute && AddDay(t).second == t.second;
    if !added { NothingYet(s, start, AddDay(DayStart(t))); }
    if SameDate(t, start) { DayOnly(s, t, start); }
  }

  lemma SecondWraps(t: Time)
    requires Civil(t)
    ensures var u := AddSecond(t);
      if t.second < 59 then u.second == t.second + 1 else u.second == 0 && u.minute == if t.minute == 59 then 0 else t.minute + 1
  {
  }

  /** The first second looked at, or the first of the next minute. */
  lemma SecondStarts(s: Spec, start: Time, t: Time)
    requires Civil(start) && Civil(t) && Dated(s, start) && start.second !in s.second.bits
    requires t == start || (FirstMinute(s, start, t) && AddSecond(t).second == 0)
    ensures FirstMinute(s, start, AddSecond(t)) || Carried(s, start, AddSecond(t))
  {
    hide DayMatches, DaysIn, AddSecond;
    SecondShape(t);
    SecondWraps(t);
    var u, b := AddSecond(t), s.second.bits;
    if Has(b, start.second + 1, 60) {
      assert t == start && u.second == t.second + 1;
      assert Gap(b, SecondFrom(s, start), u.second);
      assert Gap(s.minute.bits, MinuteFrom(s, start), u.minute);
    } else if u.second == 0 {
      assert MinuteFrom(s, start) == start.minute + 1;
      assert Carried(s, start, u);
    } else {
      assert Gap(b, start.second, 60);
      assert FirstMinute(s, start, u);
    }
  }

  lemma SecondTracked(s: Spec, start: Time, t: Time, added: bool)
    requires DayFound(s, start, t, added) && t.second !in s.second.bits && Tracked(s, start, t, added)
    ensures Tracked(s, start, AddSecond(t), true)
  {
    hide DayMatches, NonePassed, Seconds, DaysIn, AddSecond;
    SecondShape(t);
    SecondWraps(t);
    if Has(s.second.bits, 0, 60) {
      if added && !FirstMinute(s, start, t) {
        GapGrows(s.second.bits, SecondFrom(s, start), t.second);
        assert t.second < 59;
        assert Carried(s, start, AddSecond(t));
      } else if !added || AddSecond(t).second == 0 {
        SecondStarts(s, start, t);
      }
    }
  }

  lemma MinuteTracked(s: Spec, start: Time, t: Time, added: bool, cut: bool)
    requires SecondFound(s, start, t, added, cut) && t.minute !in s.minute.bits && Tracked(s, start, t, added)
    ensures Tracked(s, start, AddMinute(if added then t else t.(second := 0)), true)
  {
    hide DayMatches, NonePassed, Seconds, DaysIn, AddMinute;
    MinuteShape(if added then t else t.(second := 0));
  }

  lemma HourTracked(s: Spec, start: Time, t: Time, added: bool, cut: Cut)
    requires MinuteFound(s, start, t, added, cut) && t.hour !in s.hour.bits && Tracked(s, start, t, added)
    ensures Tracked(s, start, AddHour(if added then t else t.(minute := 0, second := 0)), true)
  {
    hide DayMatches, NonePassed, Seconds, DaysIn, AddHour;
    HourShape(if added then t else t.(minute := 0, second := 0));
  }

  // ---- The end of the search ----

  lemma LaterHour(t: Time, u: Time)
    requires Civil(t) && Civil(u) && Seconds(t) < Seconds(u) && !SameHour(t, u)
    ensures HourNumber(t) < HourNumber(u)
  {
    hide DayNumber;
    DayOf(u, t);
    if HourNumber(t) == HourNumber(u) { HourUnique(t, u); }
  }

  lemma EarlierHour(t: Time, u: Time)
    requires Civil(t) && Civil(u) && HourNumber(t) < HourNumber(u)
    ensures Seconds(t) < Seconds(u)
  {
    hide DayNumber;
  }

  /** In the end the second was found, or cut back; the minute was found unless both were cut back. */
  lemma CarriedAtEnd(s: Spec, start: Time, t: Time, cut: Cut)
    requires MinuteFound(s, start, t, true, cut) && Tracked(s, start, t, true)
    ensures Carried(s, start, t) && !Due(s, start)
    ensures t.second in s.second.bits || (Dated(s, start) && start.second in s.second.bits && t.second == 0)
    ensures t.minute in s.minute.bits || (Dated(s, start) && start.second in s.second.bits && start.minute in s.minute.bits && t.minute == 0)
  {
    hide DayMatches, NonePassed, Seconds;
  }

  lemma DueInHour(s: Spec, start: Time, t: Time, v: Time)
    requires NonePassed(s, start, t) && Civil(start) && Civil(t) && Civil(v) && Seconds(start) < Seconds(t)
    requires SameHour(v, start) && !SameHour(start, t) && Dated(s, start) && start.hour in s.hour.bits && ClockMatches(s, v)
    ensures v.minute * 60 + v.second < start.minute * 60 + start.second
  {
    hide Seconds, NonePassed, DayMatches, DaysIn;
    DayOnly(s, v, start);
    WithinDay(v, start);
    LaterHour(start, t);
    SameDay(v, start);
    EarlierHour(v, t);
    if v.minute * 60 + v.second >= start.minute * 60 + start.second { PassedHour(s, start, t, v); }
  }

  /** The search leaves an hour of the schedule only when the hour has no minute left. */
  lemma NoMinuteLeft(s: Spec, start: Time, t: Time, cut: Cut)
    requires MinuteFound(s, start, t, true, cut) && Tracked(s, start, t, true)
    requires Dated(s, start) && start.hour in s.hour.bits && !SameHour(start, t)
    ensures Gap(s.minute.bits, MinuteFrom(s, start), 60)
  {
    hide DayMatches, NonePassed, Seconds, DaysIn;
    CarriedAtEnd(s, start, t, cut);
    if Has(s.minute.bits, MinuteFrom(s, start), 60) {
      var m :| MinuteFrom(s, start) <= m < 60 && m in s.minute.bits;
      var x := if start.second in s.second.bits then start.second else t.second;
      if start.second !in s.second.bits && Has(s.second.bits, start.second + 1, 60) {
        x :| start.second + 1 <= x < 60 && x in s.second.bits;
      }
      DueInHour(s, start, t, start.(minute := m, second := x));
    }
  }

  /** A time of the schedule in the hour of the result, and not before the start. */
  lemma Reachable(s: Spec, start: Time, t: Time, u: Time)
    requires Civil(start) && Civil(t) && Civil(u) && DateMatches(s, t) && ClockMatches(s, u) && SameHour(u, t)
    requires u.minute * 60 + u.second < t.minute * 60 + t.second && Seconds(start) < Seconds(t)
    requires SameHour(start, t) ==> start.minute * 60 + start.second <= u.minute * 60 + u.second
    ensures Due(s, u) && Seconds(start) <= Seconds(u) < Seconds(t)
  {
    hide Seconds, DayMatches, DaysIn;
    DayOnly(s, u, t);
    WithinDay(u, t);
    if SameHour(start, t) {
      WithinDay(u, start);
    } else {
      LaterHour(start, t);
      SameDay(u, t);
      EarlierHour(start, u);
    }
  }

  ghost predicate Missed(s: Spec, start: Time, t: Time) {
    exists u | Due(s, u) :: Seconds(start) <= Seconds(u) < Seconds(t)
  }

  lemma CivilClock(start: Time, t: Time, u: Time)
    requires Civil(start) && Civil(t) && SameHour(u, t)
    requires (u.minute == t.minute || 0 <= u.minute <= start.minute) && (u.second == t.second || 0 <= u.second <= start.second)
    ensures Civil(u)
  {
    hide DaysIn;
  }

  /** What the time found satisfies, without the way it was found. */
  lemma FoundFacts(s: Spec, start: Time, t: Time, cut: Cut)
    requires MinuteFound(s, start, t, true, cut) && t.hour in s.hour.bits
    ensures Civil(start) && Civil(t) && Seconds(start) < Seconds(t) && DateMatches(s, t)
    ensures 0 <= start.minute < 60 && 0 <= start.second < 60 && 0 <= t.minute < 60 && 0 <= t.second < 60
    ensures SameHour(start, t) ==>
      start.hour in s.hour.bits && Dated(s, start) && start.minute * 60 + start.second < t.minute * 60 + t.second
  {
    hide Seconds, DayMatches, DaysIn, NonePassed;
    if SameHour(start, t) {
      DayOnly(s, start, t);
      WithinDay(start, t);
    }
  }

  lemma PassesOverMisses(s: Spec, start: Time, t: Time, cut: Cut)
    requires MinuteFound(s, start, t, true, cut) && Tracked(s, start, t, true) && t.hour in s.hour.bits
    requires PassesOver(s, start)
    ensures Missed(s, start, t)
  {
    hide Seconds, DayMatches, DaysIn, NonePassed, MinuteFound, Tracked, Due, Civil;
    CarriedAtEnd(s, start, t, cut);
    FoundFacts(s, start, t, cut);
    var u := t;
    if start.second in s.second.bits {
      var m :| 0 <= m < start.minute && m in s.minute.bits;
      u := t.(minute := m, second := start.second);
    } else if Has(s.second.bits, start.second + 1, 60) && Has(s.second.bits, 0, start.second) {
      var x :| 0 <= x < start.second && x in s.second.bits;
      u := t.(second := x);
    } else {
      var m :| 0 <= m < start.minute + 1 && m in s.minute.bits;
      if Has(s.second.bits, start.second + 1, 60) {
        m :| 0 <= m < start.minute && m in s.minute.bits;
      }
      u := t.(minute := m);
    }
    CivilClock(start, t, u);
    Reachable(s, start, t, u);
  }

  lemma MissedIn(s: Spec, start: Time, t: Time, cut: Cut, u: Time)
    requires MinuteFound(s, start, t, true, cut) && Due(s, u) && Seconds(start) <= Seconds(u) < Seconds(t)
    ensures SameHour(u, t)
  {
    hide Seconds, Due, NonePassed;
    PassedHour(s, start, t, u);
  }

  lemma MissesPassesOver(s: Spec, start: Time, t: Time, cut: Cut, u: Time)
    requires MinuteFound(s, start, t, true, cut) && Tracked(s, start, t, true) && t.hour in s.hour.bits
    requires Due(s, u) && Seconds(start) <= Seconds(u) < Seconds(t)
    ensures PassesOver(s, start)
  {
    hide Seconds, DayMatches, DaysIn, NonePassed, MinuteFound, Tracked;
    CarriedAtEnd(s, start, t, cut);
    FoundFacts(s, start, t, cut);
    MissedIn(s, start, t, cut, u);
    WithinDay(u, t);
    if SameHour(start, t) {
      WithinDay(start, u);
    } else if Dated(s, start) && start.hour in s.hour.bits {
      NoMinuteLeft(s, start, t, cut);
    }
  }

  /** Later than any time the search can see. */
  function Bound(start: Time): int {
    (DaysBeforeYear(start.year + YEARS + 1) + 31 * 12 + 1) * 86400
  }

  lemma LastDay(t: Time)
    requires Civil(t)
    ensures t.day <= 31
  {
  }

  lemma BelowBound(start: Time, t: Time)
    requires Civil(t) && t.year <= start.year + YEARS + 1
    ensures Seconds(t) < Bound(start)
  {
    hide DaysBeforeYear, DaysIn;
    YearsBefore(t.year, start.year + YEARS + 1);
    MonthsBefore(t.year, 1, t.month);
    LastDay(t);
  }

  /** What the result satisfies. */
  lemma Found(s: Spec, start: Time, t: Time, added: bool, cut: Cut)
    requires MinuteFound(s, start, t, added, cut) && t.hour in s.hour.bits
    ensures DateMatches(s, t) && (ClockMatches(s, t) <==> !CutsBack(s, start))
    ensures Seconds(t) >= Seconds(start)
  {
    hide Seconds, DayMatches;
    if cut == MinuteCut {
      assert exists m | start.minute < m < 60 :: m in s.minute.bits;
      assert exists h | start.hour <= h < 24 :: h in s.hour.bits;
    }
    if cut == HourCut {
      assert exists h | start.hour < h < 24 :: h in s.hour.bits;
    }
  }

  /** Exactly when the search passes over a time of the schedule. */
  lemma MissedExactly(s: Spec, t0: Time, t: Time, added: bool, cut: Cut)
    requires Civil(t0) && MinuteFound(s, AddSecond(t0), t, added, cut) && t.hour in s.hour.bits
    requires Tracked(s, AddSecond(t0), t, added)
    ensures (forall u | Due(s, u) :: !(Seconds(t0) < Seconds(u) < Seconds(t))) <==> !PassesOver(s, AddSecond(t0))
  {
    hide Seconds, DayMatches, DaysIn, NonePassed, Due, AddSecond, Tracked, Has, DateMatches;
    var start := AddSecond(t0);
    Additions(t0);
    if added {
      if PassesOver(s, start) {
        PassesOverMisses(s, start, t, cut);
      } else {
        forall u | Due(s, u) ensures !(Seconds(t0) < Seconds(u) < Seconds(t)) {
          if Seconds(start) <= Seconds(u) < Seconds(t) { MissesPassesOver(s, start, t, cut, u); }
        }
      }
    }
  }

  lemma TrackedStart(s: Spec, start: Time)
    ensures Tracked(s, start, start, false)
  {
  }

  lemma NoneDue(s: Spec, t0: Time, t: Time, added: bool)
    requires Civil(t0) && AtTop(s, AddSecond(t0), t, added) && t.year > AddSecond(t0).year + YEARS
    ensures !DueWithin(s, t0)
  {
    hide DateMatches, ClockMatches, DayMatches, DayNumber, AddSecond;
    Additions(t0);
    forall u | Due(s, u) && Seconds(u) > Seconds(t0) ensures u.year > AddSecond(t0).year + YEARS {
      if u.year < t.year {
        PassedHour(s, AddSecond(t0), t, u);
        MonthOrder(u, t);
      }
    }
  }

  /** A search that cuts back started on a date of the schedule, with a time of the schedule to come. */
  lemma CutHasDue(s: Spec, start: Time)
    requires Civil(start) && CutsBack(s, start)
    ensures exists u | Due(s, u) :: SameDate(u, start) && Seconds(u) > Seconds(start)
  {
    hide Seconds, DayMatches;
    var later := start.minute !in s.minute.bits;
    var h :| (if later then start.hour <= h else start.hour < h) && h < 24 && h in s.hour.bits;
    var m := start.minute;
    if later {
      m :| start.minute < m < 60 && m in s.minute.bits;
    }
    var u := start.(hour := h, minute := m);
    DayOnly(s, u, start);
    WithinDay(u, start);
    assert Due(s, u);
  }

  lemma SomeDue(s: Spec, t0: Time, t: Time)
    requires Civil(t0) && Civil(t) && DateMatches(s, t) && (ClockMatches(s, t) <==> !CutsBack(s, AddSecond(t0)))
    requires Seconds(t) > Seconds(t0) && t.year <= AddSecond(t0).year + YEARS
    ensures DueWithin(s, t0)
  {
    hide Seconds, DateMatches, ClockMatches, CutsBack, AddSecond, Civil;
    if CutsBack(s, AddSecond(t0)) {
      Additions(t0);
      CutHasDue(s, AddSecond(t0));
    } else {
      assert Due(s, t);
    }
  }

  lemma Begin(s: Spec, t0: Time)
    requires Civil(t0)
    ensures AtTop(s, AddSecond(t0), AddSecond(t0), false) && Seconds(AddSecond(t0)) > Seconds(t0)
  {
    hide DayMatches, AddSecond, Seconds;
    Additions(t0);
  }

  lemma End(s: Spec, t0: Time, t: Time, added: bool, cut: Cut)
    requires Civil(t0) && MinuteFound(s, AddSecond(t0), t, added, cut) && Seconds(t) >= Seconds(AddSecond(t0))
    ensures Civil(t) && Seconds(t) > Seconds(t0) && t.year <= AddSecond(t0).year + YEARS
    ensures forall u | Due(s, u) && Seconds(t0) < Seconds(u) < Seconds(t) :: SameHour(u, t)
  {
    hide DayMatches, DateMatches, ClockMatches, AddSecond, Seconds;
    Additions(t0);
    forall u | Due(s, u) && Seconds(t0) < Seconds(u) < Seconds(t) ensures SameHour(u, t) {
      PassedHour(s, AddSecond(t0), t, u);
    }
  }

  lemma TopBound(s: Spec, start: Time, t: Time, added: bool)
    requires AtTop(s, start, t, added)
    ensures Seconds(t) < Bound(start)
  {
    BelowBound(start, t);
  }

  lemma MonthBound(s: Spec, start: Time, t: Time, added: bool)
    requires MonthFound(s, start, t, added)
    ensures Seconds(t) < Bound(start)
  {
    BelowBound(start, t);
  }

  lemma DayBound(s: Spec, start: Time, t: Time, added: bool)
    requires DayFound(s, start, t, added)
    ensures Seconds(t) < Bound(start)
  {
    BelowBound(start, t);
  }

  lemma SecondBound(s: Spec, start: Time, t: Time, added: bool, cut: bool)
    requires SecondFound(s, start, t, added, cut)
    ensures Seconds(t) < Bound(start)
  {
    BelowBound(start, t);
  }

  lemma MinuteBound(s: Spec, start: Time, t: Time, added: bool, cut: Cut)
    requires MinuteFound(s, start, t, added, cut)
    ensures Seconds(t) < Bound(start)
  {
    BelowBound(start, t);
  }

  lemma MonthIs(s: Spec, start: Time, t: Time, added: bool)
    requires AtTop(s, start, t, added) && InYears(start, t) && t.month in s.month.bits
    ensures MonthFound(s, start, t, added)
  {
  }

  lemma DayIs(s: Spec, start: Time, t: Time, added: bool)
    requires MonthFound(s, start, t, added) && DayMatches(s, t)
    ensures DayFound(s, start, t, added)
  {
  }

  lemma SecondIs(s: Spec, start: Time, t: Time, added: bool)
    requires DayFound(s, start, t, added) && t.second in s.second.bits
    ensures SecondFound(s, start, t, added, false)
  {
  }

  lemma MinuteIs(s: Spec, start: Time, t: Time, added: bool, cut: bool)
    requires SecondFound(s, start, t, added, cut) && t.minute in s.minute.bits
    ensures MinuteFound(s, start, t, added, if cut then MinuteCut else NoCut)
  {
  }

  // ---- What the day fields mean ----

  predicate AllDays(f: Field) {
    forall d | 1 <= d <= 31 :: d in f.bits
  }

  predicate AllWeekdays(f: Field) {
    forall d | 0 <= d < 7 :: d in f.bits
  }

  /** The answer of a schedule whose days are these: no time of it comes before, but in the same hour. */
  ghost predicate NextOn(s: Spec, t0: Time, r: Option<Time>, day: Time -> bool) {
    && (r.Some? ==> day(r.value) && r.value.month in s.month.bits && r.value.hour in s.hour.bits)
    && forall u | Civil(u) && day(u) && u.month in s.month.bits && u.hour in s.hour.bits
         && u.minute in s.minute.bits && u.second in s.second.bits && Seconds(t0) < Seconds(u) ::
         if r.None? then u.year > AddSecond(t0).year + 5 else Seconds(u) >= Seconds(r.value) || SameHour(u, r.value)
  }

  lemma DaysDecide(s: Spec, t0: Time, r: Option<Time>, day: Time -> bool)
    requires forall u | Civil(u) :: DayMatches(s, u) <==> day(u)
    requires r.Some? ==> Civil(r.value) && DateMatches(s, r.value)
    requires r.Some? <==> DueWithin(s, t0)
    requires r.Some? ==> forall u | Due(s, u) && Seconds(t0) < Seconds(u) < Seconds(r.value) :: SameHour(u, r.value)
    ensures NextOn(s, t0, r, day)
  {
    hide DayMatches, Seconds, Civil, AddSecond, SameHour;
    forall u | Civil(u) && day(u) && u.month in s.month.bits && u.hour in s.hour.bits
      && u.minute in s.minute.bits && u.second in s.second.bits && Seconds(t0) < Seconds(u)
      ensures if r.None? then u.year > AddSecond(t0).year + 5 else Seconds(u) >= Seconds(r.value) || SameHour(u, r.value)
    {
      assert Due(s, u);
    }
  }

  /** Days and weekdays are within the full fields. */
  lemma DayRange(u: Time)
    requires Civil(u)
    ensures 1 <= u.day <= 31 && 0 <= Weekday(u) < 7
  {
    LastDay(u);
  }

  lemma DayFields(s: Spec, t0: Time, r: Option<Time>)
    requires r.Some? ==> Civil(r.value) && DateMatches(s, r.value)
    requires r.Some? <==> DueWithin(s, t0)
    requires r.Some? ==> forall u | Due(s, u) && Seconds(t0) < Seconds(u) < Seconds(r.value) :: SameHour(u, r.value)
    ensures s.dom.star && AllDays(s.dom) ==> NextOn(s, t0, r, (u: Time) => Weekday(u) in s.dow.bits)
    ensures s.dow.star && AllWeekdays(s.dow) ==> NextOn(s, t0, r, (u: Time) => u.day in s.dom.bits)
    ensures !s.dom.star && !s.dow.star ==> NextOn(s, t0, r, (u: Time) => u.day in s.dom.bits || Weekday(u) in s.dow.bits)
  {
    hide NextOn, Seconds, Weekday, Civil, DueWithin, Due, DateMatches, SameHour;
    forall u | Civil(u) ensures 1 <= u.day <= 31 && 0 <= Weekday(u) < 7 { DayRange(u); }
    if s.dom.star && AllDays(s.dom) { DaysDecide(s, t0, r, (u: Time) => Weekday(u) in s.dow.bits); }
    if s.dow.star && AllWeekdays(s.dow) { DaysDecide(s, t0, r, (u: Time) => u.day in s.dom.bits); }
    if !s.dom.star && !s.dow.star {
      DaysDecide(s, t0, r, (u: Time) => u.day in s.dom.bits || Weekday(u) in s.dow.bits);
    }
  }

  /** The next activation time after `t0`, or nothing exactly when there is none in the years looked at.
      A result is later than `t0`, with month, day and hour of the schedule. Its minute and second are of
      the schedule exactly when the search does not cut them back. No hour of the schedule is missed: a
      time of the schedule that comes before the result is in the result's own hour, and there is such a
      time exactly when the search passes over it from its start. With a star for the day of the month the
      weekday decides, with a star for the weekday the day of the month, and without a star either does. */
  method Next(s: Spec, t0: Time) returns (r: Option<Time>)
    requires Civil(t0)
    ensures r.Some? ==> Civil(r.value) && Seconds(r.value) > Seconds(t0) && DateMatches(s, r.value)
    ensures r.Some? ==> (ClockMatches(s, r.value) <==> !CutsBack(s, AddSecond(t0)))
    ensures r.Some? ==> r.value.year <= AddSecond(t0).year + 5
    ensures r.Some? <==> DueWithin(s, t0)
    ensures r.Some? ==> forall u | Due(s, u) && Seconds(t0) < Seconds(u) < Seconds(r.value) :: SameHour(u, r.value)
    ensures r.Some? ==>
      ((forall u | Due(s, u) :: !(Seconds(t0) < Seconds(u) < Seconds(r.value))) <==> !PassesOver(s, AddSecond(t0)))
    ensures s.dom.star && AllDays(s.dom) ==> NextOn(s, t0, r, (u: Time) => Weekday(u) in s.dow.bits)
    ensures s.dow.star && AllWeekdays(s.dow) ==> NextOn(s, t0, r, (u: Time) => u.day in s.dom.bits)
    ensures !s.dom.star && !s.dow.star ==> NextOn(s, t0, r, (u: Time) => u.day in s.dom.bits || Weekday(u) in s.dow.bits)
  {
    hide NextOn, AllDays, AllWeekdays, Tracked, PassesOver, Civil, Seconds, DayMatches, DateMatches, ClockMatches, Due, DueWithin, SameHour, CutsBack, AtTop, MonthFound, DayFound, SecondFound, MinuteFound, AddDay, AddMonth, AddHour, AddMinute, AddSecond;
    var t := AddSecond(t0);
    ghost var start := t;
    var added := false;
    var yearLimit := t.year + YEARS;
    Begin(s, t0);
    TrackedStart(s, start);
    label WRAP:
    while true
      invariant AtTop(s, start, t, added) && Tracked(s, start, t, added)
      decreases Bound(start) - Seconds(t)
    {
      ghost var top := t;
      TopBound(s, start, t, added);
      if t.year > yearLimit {
        NoneDue(s, t0, t, added);
        DayFields(s, t0, None);
        return None;
      }
      while t.month !in s.month.bits
        invariant AtTop(s, start, t, added) && InYears(start, t) && Seconds(t) >= Seconds(top) && Tracked(s, start, t, added)
        decreases Bound(start) - Seconds(t)
      {
        MonthTurn(s, start, t, added);
        MonthTracked(s, start, t, added);
        TopBound(s, start, t, added);
        if !added {
          added := true;
          t := Time(t.year, t.month, 1, 0, 0, 0);
        }
        t := AddMonth(t);
        if t.month == 1 {
          continue WRAP;
        }
      }
      MonthIs(s, start, t, added);
      while !DayMatches(s, t)
        invariant MonthFound(s, start, t, added) && Seconds(t) >= Seconds(top) && Tracked(s, start, t, added)
        decreases Bound(start) - Seconds(t)
      {
        DayTurn(s, start, t, added);
        DayTracked(s, start, t, added);
        MonthBound(s, start, t, added);
        if !added {
          added := true;
          t := t.(hour := 0, minute := 0, second := 0);
        }
        t := AddDay(t);
        if t.day == 1 {
          continue WRAP;
        }
      }
      DayIs(s, start, t, added);
      while t.second !in s.second.bits
        invariant DayFound(s, start, t, added) && Seconds(t) >= Seconds(top) && Tracked(s, start, t, added)
        decreases Bound(start) - Seconds(t)
      {
        SecondTurn(s, start, t, added);
        SecondTracked(s, start, t, added);
        DayBound(s, start, t, added);
        if !added {
          added := true;
        }
        t := AddSecond(t);
        if t.second == 0 {
          continue WRAP;
        }
      }
      SecondIs(s, start, t, added);
      ghost var cut := false;
      while t.minute !in s.minute.bits
        invariant SecondFound(s, start, t, added, cut) && Seconds(t) >= Seconds(top) && Tracked(s, start, t, added)
        decreases Bound(start) - Seconds(t)
      {
        MinuteTurn(s, start, t, added, cut);
        MinuteTracked(s, start, t, added, cut);
        SecondBound(s, start, t, added, cut);
        cut := cut || !added;
        if !added {
          added := true;
          t := t.(second := 0);
        }
        t := AddMinute(t);
        if t.minute == 0 {
          continue WRAP;
        }
      }
      ghost var what := if cut then MinuteCut else NoCut;
      MinuteIs(s, start, t, added, cut);
      while t.hour !in s.hour.bits
        invariant MinuteFound(s, start, t, added, what) && Seconds(t) >= Seconds(top) && Tracked(s, start, t, added)
        decreases Bound(start) - Seconds(t)
      {
        HourTurn(s, start, t, added, what);
        HourTracked(s, start, t, added, what);
        MinuteBound(s, start, t, added, what);
        what := if added then what else HourCut;
        if !added {
          added := true;
          t := t.(minute := 0, second := 0);
        }
        t := AddHour(t);
        if t.hour == 0 {
          continue WRAP;
        }
      }
      Found(s, start, t, added, what);
      End(s, t0, t, added, what);
      SomeDue(s, t0, t);
      MissedExactly(s, t0, t, added, what);
      DayFields(s, t0, Some(t));
      return Some(t);
    }
    assert false;
  }
}
