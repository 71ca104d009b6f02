/** gmtime, mkgmtime and the daylight-saving table of obj_zip/zip30/timezone.c. Integers are unbounded
    except where the source computes in unsigned int. */
module Timezone {
  import opened Calendar
  import opened Division

  const TIME_MAX := 0xFFFF_FFFE

  function U32(x: int): nat { x % 0x1_0000_0000 }

  function FloorDiv(a: int, b: int): int
    requires b > 0
  {
    a / b
  }

  /** The instant that any fields denote, in range or not: months carry into years, and days, hours,
      minutes and seconds simply add up. */
  function Instant(year: int, mon: int, mday: int, hour: int, min: int, sec: int): int {
    Seconds(MonthStart(year + FloorDiv(mon, 12), mon % 12) + mday - 1, hour, min, sec)
  }

  function Seconds(day: int, hour: int, min: int, sec: int): int {
    ((day * 24 + hour) * 60 + min) * 60 + sec
  }

  class Tm {
    var year: int       // since 1900
    var mon: int
    var mday: int
    var hour: int
    var min: int
    var sec: int
    var wday: int
    var yday: int
    var isdst: int

    constructor ()
    {
      year, mon, mday, hour, min, sec, wday, yday, isdst := 0, 0, 0, 0, 0, 0, 0, 0, 0;
    }

    ghost function When(): int
      reads this
    {
      Instant(year + 1900, mon, mday, hour, min, sec)
    }

    /** Every field in its range. */
    ghost predicate Normal()
      reads this
    {
      && 0 <= mon < 12 && 1 <= mday <= MonthLen(mon, year + 1900)
      && 0 <= hour < 24 && 0 <= min < 60 && 0 <= sec < 60
    }

    /** yday and wday are those of the date. */
    ghost predicate DayFieldsOK()
      requires Normal()
      reads this
    {
      var day := MonthStart(year + 1900, mon) + mday - 1;
      yday == day - DaysBefore(year + 1900) && wday == Weekday(day)
    }
  }

  /** ADJUST_TM: C's truncating operators arranged so as to carry toward minus infinity. */
  method AdjustTm(member: int, carry: int, modulus: int) returns (rest: int, carried: int)
    requires modulus > 0
    ensures rest == member % modulus && carried == carry + FloorDiv(member, modulus)
  {
    if member < 0 {
      carried := carry - (1 - CDiv(member + 1, modulus));
      rest := (modulus - 1) + CMod(member + 1, modulus);
      var q, r := (-(member + 1)) / modulus, (-(member + 1)) % modulus;
      assert member == modulus * (-q - 1) + (modulus - 1 - r) by {
        assert -(member + 1) == modulus * q + r;
      }
      Quotient(member, modulus, -q - 1, modulus - 1 - r);
    } else if member >= modulus {
      carried := carry + CDiv(member, modulus);
      rest := CMod(member, modulus);
      Quotient(member, modulus, member / modulus, member % modulus);
    } else {
      rest, carried := member, carry;
      Quotient(member, modulus, 0, member);
    }
  }

  lemma CarryTime(day: int, h: int, m: int, s: int)
    ensures var m1 := m + FloorDiv(s, 60);
            var h1 := h + FloorDiv(m1, 60);
            Seconds(day + FloorDiv(h1, 24), h1 % 24, m1 % 60, s % 60) == Seconds(day, h, m, s)
  {
  }

  lemma InMonth(years: int, months: int, days: int)
    requires 0 <= months < 12 && 0 <= days < MonthLen(months, years)
    ensures YR_DAYS[LeapIndex(years)][months] + days < YearLength(years)
  {
  }

  /** mkgmtime: normalises the fields without moving the instant they denote, and returns that instant
      if it is one that time_t can hold, -1 otherwise. The day of the year is always right, the day of the
      week exactly when its unsigned sum allows. */
  method MkGmTime(tm: Tm) returns (r: int)
    modifies tm
    ensures tm.Normal() && tm.When() == old(tm.When()) && tm.isdst == 0
    ensures tm.yday == MonthStart(tm.year + 1900, tm.mon) + tm.mday - 1 - DaysBefore(tm.year + 1900)
    ensures tm.DayFieldsOK() <==> WeekdayRight(tm.year + 1900, tm.yday)
    ensures r == if 0 <= old(tm.When()) <= TIME_MAX then old(tm.When()) else -1
  {
    hide MonthStart, Seconds, MonthLen, DaysBefore, WeekdayRight;
    var years, months, days := tm.year + 1900, tm.mon, tm.mday - 1;
    var hours, minutes, seconds := tm.hour, tm.min, tm.sec;
    CarryTime(MonthStart(years + FloorDiv(months, 12), months % 12) + days, hours, minutes, seconds);
    seconds, minutes := AdjustTm(seconds, minutes, 60);
    minutes, hours := AdjustTm(minutes, hours, 60);
    hours, days := AdjustTm(hours, days, 24);
    months, years := AdjustTm(months, years, 12);
    years, months, days := SettleDays(years, months, days);
    tm.year, tm.mon, tm.mday := years - 1900, months, days + 1;
    tm.hour, tm.min, tm.sec := hours, minutes, seconds;
    r, tm.yday, tm.wday := Encode(years, months, days, hours, minutes, seconds);
    tm.isdst := 0;
  }

  /** The end of mkgmtime: day of the year, day of the week, and the instant or -1. */
  method Encode(years: int, months: int, days0: int, hours: int, minutes: int, seconds: int)
    returns (r: int, yday: int, wday: int)
    requires 0 <= months < 12 && 0 <= days0 < MonthLen(months, years)
    requires 0 <= hours < 24 && 0 <= minutes < 60 && 0 <= seconds < 60
    ensures var day := MonthStart(years, months) + days0;
            var t := Seconds(day, hours, minutes, seconds);
            && r == (if 0 <= t <= TIME_MAX then t else -1)
            && yday == day - DaysBefore(years)
            && (wday == Weekday(day) <==> WeekdayRight(years, yday))
  {
    ghost var day := MonthStart(years, months) + days0;
    InMonth(years, months, days0);
    yday := days0 + YR_DAYS[LeapIndex(years)][months];
    YearBounds(years);
    DayCount(yday, years - EPOCH_YEAR, NLeap(years));
    WeekdayOf(years, yday);
    TooEarly(day, hours, minutes, seconds);
    hide DaysBefore, YearLength, LeapIndex, NLeap, MonthLen, U32, WeekdayRight;
    var days := U32(U32(yday) + 365 * U32(years - EPOCH_YEAR) + U32(NLeap(years)));
    wday := U32(days + EPOCH_WDAY) % 7;
    if years < EPOCH_YEAR {
      return -1, yday, wday;
    }
    if years > 2106
       || (years == 2106
           && (yday > YR_DAYS[LeapIndex(2106)][1] + 6
               || (yday == YR_DAYS[LeapIndex(2106)][1] + 6
                   && (hours > 6 || (hours == 6 && (minutes > 28 || (minutes == 28 && seconds > 14))))))) {
      return -1, yday, wday;
    }
    r := SECSPERDAY * days + 3600 * hours + (60 * minutes + seconds);
  }

  /** The unsigned sums, however often they wrap; within reach of time_t they do not. */
  lemma DayCount(yday: int, n: int, leaps: int)
    ensures var days := U32(U32(yday) + 365 * U32(n) + U32(leaps));
            && U32(days + EPOCH_WDAY) == U32(yday + 365 * n + leaps + EPOCH_WDAY)
            && (0 <= yday + 365 * n + leaps < 0x1_0000_0000 ==> days == yday + 365 * n + leaps)
  {
    var m, x := 0x1_0000_0000, yday + 365 * n + leaps;
    Shifted(x, m, -(yday / m) - 365 * (n / m) - leaps / m);
    ReducedFirst(x, EPOCH_WDAY, m);
    if 0 <= x < m {
      Quotient(x, m, 0, x);
    }
  }

  /** What mkgmtime adds up in unsigned int for the day of the week. */
  function WeekdaySum(years: int, yday: int): int {
    yday + 365 * (years - EPOCH_YEAR) + NLeap(years) + EPOCH_WDAY
  }

  /** The leap days lost to rounding toward zero, against four days of the week for every time that the
      sum has left its range. */
  predicate WeekdayRight(years: int, yday: int) {
    (NLeap(years) - FloorLeaps(years) - 4 * (WeekdaySum(years, yday) / 0x1_0000_0000)) % 7 == 0
  }

  lemma WeekdayOf(years: int, yday: int)
    ensures U32(WeekdaySum(years, yday)) % 7 == Weekday(DaysBefore(years) + yday) <==> WeekdayRight(years, yday)
  {
    var m, s, e := 0x1_0000_0000, WeekdaySum(years, yday), NLeap(years) - FloorLeaps(years);
    FloorLeapsCount(years);
    hide NLeap, FloorLeaps, DaysBefore;
    assert U32(s) == s - m * (s / m) && DaysBefore(years) + yday + EPOCH_WDAY == s - e;
    SevenApart(s - e, e - 4 * (s / m), 613566756 * (s / m));
    assert s - m * (s / m) == (s - e) + (e - 4 * (s / m)) - 7 * (613566756 * (s / m));
  }

  lemma SevenApart(d: int, x: int, k: int)
    ensures (d + x - 7 * k) % 7 == d % 7 <==> x % 7 == 0
  {
    Shifted(d + x, 7, -k);
    var q, r := x / 7, x % 7;
    Shifted(d + r, 7, q);
    assert d + x == d + r + 7 * q && d + x - 7 * k == d + x + 7 * -k;
    if r != 0 {
      ResiduesDiffer(d + r, d, 7);
    }
  }

  /** In the years of time_t it is right. */
  lemma WeekdayInReach(years: int, yday: int)
    requires EPOCH_YEAR <= years <= 2106 && 0 <= yday < 366
    ensures WeekdayRight(years, yday)
  {
    NLeapCounts(years);
    YearBounds(years);
    hide NLeap, FloorLeaps, DaysBefore;
    Quotient(WeekdaySum(years, yday), 0x1_0000_0000, 0, WeekdaySum(years, yday));
  }

  /** Before them it may not be: 1 January 1969 comes out as a Sunday, for a Wednesday. */
  lemma WeekdayBefore()
    ensures !WeekdayRight(1969, 0) && U32(WeekdaySum(1969, 0)) % 7 == 0 && Weekday(DaysBefore(1969)) == 3
  {
    assert NLeap(1969) == 0 && FloorLeaps(1969) == 0 && DaysBefore(1970) == 0 && DaysBefore(1969) == -365;
    assert WeekdaySum(1969, 0) == -361;
  }

  lemma TooEarly(day: int, h: int, m: int, s: int)
    requires 0 <= h < 24 && 0 <= m < 60 && 0 <= s < 60
    ensures Seconds(day, h, m, s) == SECSPERDAY * day + 3600 * h + (60 * m + s)
    ensures SECSPERDAY * day <= Seconds(day, h, m, s) < SECSPERDAY * (day + 1)
  {
  }

  /** Where the years lie that time_t reaches. */
  lemma YearBounds(years: int)
    ensures 365 <= YearLength(years) <= 366
    ensures years < EPOCH_YEAR ==> DaysBefore(years) + YearLength(years) <= 0
    ensures EPOCH_YEAR <= years <= 2106 ==>
              365 * (years - EPOCH_YEAR) + NLeap(years) == DaysBefore(years) && 0 <= NLeap(years) <= 40
    ensures years == 2106 ==> DaysBefore(years) == 49673 && YR_DAYS[LeapIndex(2106)][1] == 31
    ensures EPOCH_YEAR <= years < 2106 ==> DaysBefore(years) + YearLength(years) <= 49673
    ensures years > 2106 ==> DaysBefore(years) >= 50038
  {
    hide DaysBefore, NLeap, LeapIndex;
    LastYear();
    OneYear(years);
    if years < EPOCH_YEAR {
      NextYear(years);
      YearsApart(years + 1, EPOCH_YEAR);
    } else if years <= 2106 {
      FewLeaps(years);
      if years < 2106 {
        NextYear(years);
        YearsApart(years + 1, 2106);
      }
    } else {
      YearsApart(2106, years);
    }
  }

  lemma OneYear(years: int)
    ensures 365 <= YearLength(years) <= 366
  {
  }

  lemma LastYear()
    ensures DaysBefore(2106) == 49673 && DaysBefore(EPOCH_YEAR) == 0 && YR_DAYS[LeapIndex(2106)][1] == 31
  {
    hide DaysBefore, NLeap, FloorLeaps;
    LateLeaps();
    NLeapCounts(EPOCH_YEAR);
    NLeapCounts(2106);
  }

  lemma LateLeaps()
    ensures NLeap(EPOCH_YEAR) == 0 && NLeap(2037) == 17 && NLeap(2105) == NLeap(2106) == 33 && !Leap(2106)
  {
  }

  lemma FewLeaps(years: int)
    requires EPOCH_YEAR <= years <= 2106
    ensures 365 * (years - EPOCH_YEAR) + NLeap(years) == DaysBefore(years) && 0 <= NLeap(years) <= 40
  {
    NLeapCounts(years);
    hide DaysBefore, FloorLeaps;
  }

  /** The two day loops: into the month, forwards or backwards. */
  method SettleDays(years0: int, months0: int, days0: int) returns (years: int, months: int, days: int)
    requires 0 <= months0 < 12
    ensures 0 <= months < 12 && 0 <= days < MonthLen(months, years)
    ensures MonthStart(years, months) + days == MonthStart(years0, months0) + days0
  {
    years, months, days := years0, months0, days0;
    if days < 0 {
      while true
        invariant 0 <= months < 12 && days < 0
        invariant MonthStart(years, months) + days == MonthStart(years0, months0) + days0
        decreases -days
      {
        months := months - 1;
        if months < 0 {
          years := years - 1;
          months := 11;
        }
        MonthTables(years, months);
        NextMonth(years, months);
        days := days + MonthLen(months, years);
        if !(days < 0) {
          break;
        }
      }
    } else {
      while days >= MonthLen(months, years)
        invariant 0 <= months < 12 && days >= 0
        invariant MonthStart(years, months) + days == MonthStart(years0, months0) + days0
        decreases days
      {
        MonthTables(years, months);
        NextMonth(years, months);
        days := days - MonthLen(months, years);
        months := months + 1;
        if months >= 12 {
          years := years + 1;
          months := 0;
        }
      }
    }
  }

  /** gmtime: every field in range, and together they denote the given time. */
  method GmTime(when: int, tm: Tm)
    requires when >= 0
    modifies tm
    ensures tm.Normal() && tm.DayFieldsOK() && tm.When() == when
    ensures tm.year + 1900 >= EPOCH_YEAR && tm.isdst == 0
  {
    hide MonthStart, Seconds, MonthLen, DaysBefore, YearLength;
    var days, secs := when / SECSPERDAY, when % SECSPERDAY;
    SplitSeconds(days, secs);
    tm.wday := (days + EPOCH_WDAY) % 7;
    var year, yday, mon, mday := DateOf(days);
    tm.year, tm.yday, tm.mon, tm.mday, tm.isdst := year - 1900, yday, mon, mday + 1, 0;
    tm.sec, tm.min, tm.hour := secs % 60, (secs / 60) % 60, secs / 3600;
    assert FloorDiv(mon, 12) == 0 && mon % 12 == mon;
  }

  /** The two loops of gmtime: out of the days since the epoch whole years, then whole months. */
  method DateOf(days0: int) returns (year: int, yday: int, mon: int, days: int)
    requires days0 >= 0
    ensures year >= EPOCH_YEAR && 0 <= mon < 12 && 0 <= days < MonthLen(mon, year)
    ensures MonthStart(year, mon) + days == days0 && DaysBefore(year) + yday == days0
  {
    days, year := days0, EPOCH_YEAR;
    while days >= YearLength(year)
      invariant year >= EPOCH_YEAR && days >= 0 && DaysBefore(year) + days == days0
      decreases days
    {
      NextYear(year);
      days := days - YearLength(year);
      year := year + 1;
    }
    yday, mon := days, 0;
    hide DaysBefore, YearLength, LeapIndex, MonthLen;
    while days >= MON_LENGTHS[LeapIndex(year)][mon]
      invariant 0 <= mon < 12 && days >= 0 && YR_DAYS[LeapIndex(year)][mon] + days == yday
      decreases days
    {
      MonthTables(year, mon);
      days := days - MON_LENGTHS[LeapIndex(year)][mon];
      mon := mon + 1;
    }
    MonthTables(year, mon);
  }

  lemma SplitSeconds(day: int, secs: int)
    requires 0 <= secs < SECSPERDAY
    ensures Seconds(day, secs / 3600, (secs / 60) % 60, secs % 60) == SECSPERDAY * day + secs
    ensures secs / 3600 < 24
  {
  }

  /** The two conversions are inverse on every time that time_t can hold. */
  method GmTimeAndBack(when: int, tm: Tm) returns (r: int)
    requires 0 <= when <= TIME_MAX
    modifies tm
    ensures r == when
  {
    GmTime(when, tm);
    r := MkGmTime(tm);
  }

  /** In-range fields are determined by the instant, so either conversion gives the only answer. */
  lemma NormalFieldsUnique(y1: int, m1: int, d1: int, s1: int, y2: int, m2: int, d2: int, s2: int)
    requires 0 <= m1 < 12 && 0 <= d1 < MonthLen(m1, y1) && 0 <= s1 < SECSPERDAY
    requires 0 <= m2 < 12 && 0 <= d2 < MonthLen(m2, y2) && 0 <= s2 < SECSPERDAY
    requires SECSPERDAY * (MonthStart(y1, m1) + d1) + s1 == SECSPERDAY * (MonthStart(y2, m2) + d2) + s2
    ensures y1 == y2 && m1 == m2 && d1 == d2 && s1 == s2
  {
    var day1, day2 := MonthStart(y1, m1) + d1, MonthStart(y2, m2) + d2;
    assert day1 == day2 && s1 == s2;
    InMonth(y1, m1, d1);
    InMonth(y2, m2, d2);
    if y1 < y2 {
      NextYear(y1);
      YearsApart(y1 + 1, y2);
    } else if y2 < y1 {
      NextYear(y2);
      YearsApart(y2 + 1, y1);
    } else {
      MonthsOrdered(y1, m1, m2);
      MonthsOrdered(y1, m2, m1);
    }
  }

  lemma MonthsOrdered(y: int, m: int, n: int)
    requires 0 <= m < 12 && 0 <= n < 12
    ensures m < n ==> MonthStart(y, m) + MonthLen(m, y) <= MonthStart(y, n)
  {
  }

  // ---------- daylight saving rules

  datatype Rule =
    | JulianDay(day: int, time: int)
    | DayOfYear(day: int, time: int)
    | MonthNthDayOfWeek(day: int, week: int, mon: int, time: int)
  {
    /** What getrule lets through. */
    predicate Valid() {
      match this
      case JulianDay(d, _) => 1 <= d <= 365
      case DayOfYear(d, _) => 0 <= d <= 365
      case MonthNthDayOfWeek(d, w, m, _) => 0 <= d < 7 && 1 <= w <= 5 && 1 <= m <= 12
    }
  }

  /** d, counted from 0, is the week-th day of its kind in a month of len days, or the last if there
      are not so many. */
  predicate NthOrLast(d: int, week: int, len: int) {
    0 <= d < len && (d / 7 == week - 1 || (d / 7 < week - 1 && d + 7 >= len))
  }

  /** The day, counted from 1 January, on which a rule falls in the given year. */
  ghost predicate FallsOn(rule: Rule, year: int, day: int) {
    match rule
    case JulianDay(d, _) =>
      // day 60 is 1 March in every year; 29 February has no number
      0 <= day < YearLength(year) && (day < 59 ==> day == d - 1)
      && (day >= 59 ==> !(Leap(year) && day == 59) && d - 1 == day - LeapIndex(year))
    case DayOfYear(d, _) => day == d
    case MonthNthDayOfWeek(wd, week, mon, _) =>
      1 <= mon <= 12 && Weekday(DaysBefore(year) + day) == wd
      && NthOrLast(day - YR_DAYS[LeapIndex(year)][mon - 1], week, MonthLen(mon - 1, year))
  }

  method TransTime(janfirst: int, year: int, rule: Rule, offset: int) returns (t: int, ghost day: int)
    requires rule.Valid() && year >= EPOCH_YEAR
    ensures t == janfirst + SECSPERDAY * day + rule.time + offset
    ensures FallsOn(rule, year, day)
  {
    var value := 0;
    match rule {
      case JulianDay(d, _) =>
        value, day := janfirst + (d - 1) * SECSPERDAY, d - 1;
        if Leap(year) && d >= 60 {
          value, day := value + SECSPERDAY, day + 1;
        }
      case DayOfYear(d, _) =>
        value, day := janfirst + d * SECSPERDAY, d;
      case MonthNthDayOfWeek(wd, week, mon, _) =>
        var d := NthDay(year, rule);
        value := janfirst + YR_DAYS[LeapIndex(year)][mon - 1] * SECSPERDAY + d * SECSPERDAY;
        day := YR_DAYS[LeapIndex(year)][mon - 1] + d;
    }
    t := value + rule.time + offset;
  }

  /** The day of the month, from 0, on which the rule falls. */
  method NthDay(year: int, rule: Rule) returns (d: int)
    requires rule.MonthNthDayOfWeek? && rule.Valid() && year >= EPOCH_YEAR
    ensures NthOrLast(d, rule.week, MonthLen(rule.mon - 1, year))
    ensures Weekday(MonthStart(year, rule.mon - 1) + d) == rule.day
  {
    hide MonthStart, MonthLen;
    var dow := FirstWeekday(year, rule.mon);
    d := rule.day - dow;
    if d < 0 {
      d := d + 7;
    }
    MonthTables(year, rule.mon - 1);
    ghost var first := d;
    assert Weekday(MonthStart(year, rule.mon - 1) + first) == rule.day;
    for i := 1 to rule.week
      invariant 0 <= d < MonthLen(rule.mon - 1, year) && d == first + 7 * (i - 1)
      invariant Weekday(MonthStart(year, rule.mon - 1) + d) == rule.day
    {
      if d + 7 >= MON_LENGTHS[LeapIndex(year)][rule.mon - 1] {
        break;
      }
      d := d + 7;
    }
  }

  /** Zeller's congruence. */
  method FirstWeekday(year: int, mon: int) returns (dow: int)
    requires 1 <= mon <= 12 && year >= EPOCH_YEAR
    ensures 0 <= dow < 7 && dow == Weekday(MonthStart(year, mon - 1))
  {
    hide MonthStart, Weekday;
    var m1 := CMod(mon + 9, 12) + 1;
    var yy0 := if mon <= 2 then year - 1 else year;
    assert m1 == ZellerMonth(mon) && yy0 == ZellerYear(mon, year);
    var yy1, yy2 := yy0 / 100, yy0 % 100;
    var sum := (26 * m1 - 2) / 10 + 1 + yy2 + yy2 / 4 + yy1 / 4 - 2 * yy1;
    assert sum == ZellerSum(m1, yy0);
    hide *;
    dow := CMod(sum, 7);
    if dow < 0 {
      dow := dow + 7;
    }
    FirstOfMonth(mon, year, dow);
  }

  lemma FirstOfMonth(mon: int, year: int, dow: int)
    requires 1 <= mon <= 12 && year >= EPOCH_YEAR
    requires var r := CMod(ZellerSum(ZellerMonth(mon), ZellerYear(mon, year)), 7);
             dow == if r < 0 then r + 7 else r
    ensures 0 <= dow < 7 && dow == Weekday(MonthStart(year, mon - 1))
  {
    Zeller(mon, year);
    PositiveRemainder(ZellerSum(ZellerMonth(mon), ZellerYear(mon, year)));
  }

  lemma PositiveRemainder(x: int)
    ensures (if CMod(x, 7) < 0 then CMod(x, 7) + 7 else CMod(x, 7)) == x % 7
  {
  }

  // ---------- the table of transitions

  const TZ_MAX_TIMES := 272

  class ZoneState {
    var timecnt: int
    const ats: array<int>
    const types: array<int>
    var gmtoff: seq<int>      // of ttis[0], standard time, and ttis[1], daylight time

    ghost predicate Valid()
      reads this
    {
      ats.Length == TZ_MAX_TIMES && types.Length == TZ_MAX_TIMES && ats != types && |gmtoff| == 2
    }

    constructor (standard: int, daylight: int)
      ensures Valid() && gmtoff == [standard, daylight] && fresh(ats) && fresh(types)
    {
      ats := new int[TZ_MAX_TIMES];
      types := new int[TZ_MAX_TIMES];
      timecnt, gmtoff := 0, [standard, daylight];
    }
  }

  /** LAST_GOOD_YEAR, for a signed and an unsigned 32-bit time_t. */
  function LastGoodYear(signedTime: bool): int {
    EPOCH_YEAR + if signedTime then 67 else 135
  }

  /** t is when the rule takes effect in the given year: the rule's day and time on the local clock
      that runs gmtoff seconds ahead of universal time. */
  ghost predicate TakesEffect(rule: Rule, year: int, gmtoff: int, t: int) {
    exists day :: FallsOn(rule, year, day) && t == SECSPERDAY * (DaysBefore(year) + day) + rule.time - gmtoff
  }

  const TWO_WEEKS := 14 * SECSPERDAY

  lemma DayInYear(rule: Rule, year: int, day: int)
    requires rule.Valid() && FallsOn(rule, year, day)
    ensures 0 <= day <= 365
  {
    if rule.MonthNthDayOfWeek? {
      MonthTables(year, rule.mon - 1);
      InMonth(year, rule.mon - 1, day - YR_DAYS[LeapIndex(year)][rule.mon - 1]);
    }
  }

  /** With changes that the local clock moves by no more than two weeks, a signed time_t of 32 bits holds
      every time of the table, and an unsigned one all but those before the epoch itself, in 1970. */
  lemma TransitionFits(rule: Rule, year: int, gmtoff: int, day: int, t: int, signedTime: bool)
    requires rule.Valid() && FallsOn(rule, year, day) && EPOCH_YEAR <= year <= LastGoodYear(signedTime)
    requires t == SECSPERDAY * (DaysBefore(year) + day) + rule.time - gmtoff
    requires -TWO_WEEKS <= rule.time - gmtoff <= TWO_WEEKS
    ensures signedTime ==> -0x8000_0000 <= t < 0x8000_0000
    ensures !signedTime ==>
              t < 0x1_0000_0000 && (0 <= t <==> year > EPOCH_YEAR || SECSPERDAY * day + rule.time >= gmtoff)
  {
    hide DaysBefore, FallsOn, Rule.Valid;
    DayInYear(rule, year, day);
    LastTables();
    YearsApart(EPOCH_YEAR, year);
    YearsApart(year, LastGoodYear(signedTime));
  }

  lemma LastTables()
    ensures DaysBefore(EPOCH_YEAR) == 0 && DaysBefore(2037) == 24472 && DaysBefore(2105) == 49308
  {
    hide DaysBefore, NLeap, FloorLeaps;
    LateLeaps();
    NLeapCounts(EPOCH_YEAR);
    NLeapCounts(2037);
    NLeapCounts(2105);
  }

  /** For example the change at midnight of 1 January 1970 an hour east of Greenwich. */
  lemma BeforeTheEpoch()
    ensures TakesEffect(JulianDay(1, 0), EPOCH_YEAR, 3600, -3600)
  {
    assert FallsOn(JulianDay(1, 0), EPOCH_YEAR, 0) && DaysBefore(EPOCH_YEAR) == 0;
  }

  /** Entries 2k and 2k + 1 are the two changes of year 1970 + k, the earlier one first. */
  ghost predicate YearEntries(ats: seq<int>, types: seq<int>, k: int, start: Rule, end: Rule, gmtoff: seq<int>)
    requires |gmtoff| == 2
  {
    && 0 <= 2 * k && 2 * k + 1 < |ats| == |types| && ats[2 * k] <= ats[2 * k + 1]
    && {types[2 * k], types[2 * k + 1]} == {0, 1}
    && (var on := if types[2 * k] == 1 then ats[2 * k] else ats[2 * k + 1];
        var off := if types[2 * k] == 1 then ats[2 * k + 1] else ats[2 * k];
        TakesEffect(start, EPOCH_YEAR + k, gmtoff[0], on) && TakesEffect(end, EPOCH_YEAR + k, gmtoff[1], off))
  }

  /** generate_transitions: two entries for every year, which fit the table, and for an unsigned
      time_t fill it to the last place. */
  method GenerateTransitions(sp: ZoneState, start: Rule, end: Rule, signedTime: bool)
    requires sp.Valid() && start.Valid() && end.Valid()
    modifies sp`timecnt, sp.ats, sp.types
    ensures sp.timecnt == 2 * (LastGoodYear(signedTime) - EPOCH_YEAR + 1) <= TZ_MAX_TIMES
    ensures !signedTime ==> sp.timecnt == TZ_MAX_TIMES
    ensures forall k :: 0 <= k < sp.timecnt / 2 ==> YearEntries(sp.ats[..], sp.types[..], k, start, end, sp.gmtoff)
  {
    sp.timecnt := 2 * (LastGoodYear(signedTime) - EPOCH_YEAR + 1);
    var at: nat, janfirst, year := 0, 0, EPOCH_YEAR;
    hide YearEntries, DaysBefore, YearLength;
    while year <= LastGoodYear(signedTime)
      invariant EPOCH_YEAR <= year <= LastGoodYear(signedTime) + 1 && at == 2 * (year - EPOCH_YEAR)
      invariant janfirst == SECSPERDAY * DaysBefore(year)
      invariant sp.timecnt == 2 * (LastGoodYear(signedTime) - EPOCH_YEAR + 1)
      invariant forall k :: 0 <= k < year - EPOCH_YEAR ==>
                  YearEntries(sp.ats[..], sp.types[..], k, start, end, sp.gmtoff)
    {
      ghost var ats, types := sp.ats[..], sp.types[..];
      StoreYear(sp, at, year, janfirst, start, end);
      EarlierEntries(ats, types, sp.ats[..], sp.types[..], year - EPOCH_YEAR, start, end, sp.gmtoff);
      at := at + 2;
      NextYear(year);
      janfirst := janfirst + YearLength(year) * SECSPERDAY;
      year := year + 1;
    }
  }

  lemma EarlierEntries(ats: seq<int>, types: seq<int>, ats': seq<int>, types': seq<int>, n: nat,
                       start: Rule, end: Rule, gmtoff: seq<int>)
    requires |gmtoff| == 2 && |ats| == |types| == |ats'| == |types'| && 2 * n <= |ats|
    requires ats'[..2 * n] == ats[..2 * n] && types'[..2 * n] == types[..2 * n]
    ensures forall k :: 0 <= k < n && YearEntries(ats, types, k, start, end, gmtoff) ==>
              YearEntries(ats', types', k, start, end, gmtoff)
  {
  }

  method StoreYear(sp: ZoneState, at: nat, year: int, janfirst: int, start: Rule, end: Rule)
    requires sp.Valid() && start.Valid() && end.Valid() && year >= EPOCH_YEAR
    requires at == 2 * (year - EPOCH_YEAR) && at + 1 < TZ_MAX_TIMES && janfirst == SECSPERDAY * DaysBefore(year)
    modifies sp.ats, sp.types
    ensures YearEntries(sp.ats[..], sp.types[..], year - EPOCH_YEAR, start, end, sp.gmtoff)
    ensures sp.ats[..at] == old(sp.ats[..at]) && sp.types[..at] == old(sp.types[..at])
  {
    var starttime, d1 := TransTime(janfirst, year, start, -sp.gmtoff[0]);
    var endtime, d2 := TransTime(janfirst, year, end, -sp.gmtoff[1]);
    assert TakesEffect(start, year, sp.gmtoff[0], starttime) && TakesEffect(end, year, sp.gmtoff[1], endtime);
    if starttime > endtime {
      sp.ats[at], sp.types[at] := endtime, 0;
      sp.ats[at + 1], sp.types[at + 1] := starttime, 1;
    } else {
      sp.ats[at], sp.types[at] := starttime, 1;
      sp.ats[at + 1], sp.types[at + 1] := endtime, 0;
    }
  }
}
