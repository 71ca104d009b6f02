/** The proleptic Gregorian calendar by counting, and the closed forms of obj_zip/zip30/timezone.c. */
module Calendar {
  import opened Division

  const EPOCH_YEAR := 1970
  const EPOCH_WDAY := 4
  const SECSPERDAY := 86400

  const MON_LENGTHS: seq<seq<nat>> := [
    [31, 28, 31, 30, 31, 30, 31, 31, 30, 31, 30, 31],
    [31, 29, 31, 30, 31, 30, 31, 31, 30, 31, 30, 31]]
  const YR_DAYS: seq<seq<nat>> := [
    [0, 31, 59, 90, 120, 151, 181, 212, 243, 273, 304, 334, 365],
    [0, 31, 60, 91, 121, 152, 182, 213, 244, 274, 305, 335, 366]]

  /** C's division and remainder: toward zero. */
  function CDiv(a: int, b: int): int
    requires b > 0
  {
    if a >= 0 then a / b else -((-a) / b)
  }

  function CMod(a: int, b: int): int
    requires b > 0
  {
    a - b * CDiv(a, b)
  }

  predicate Leap(y: int) {
    (y % 4 == 0 && y % 100 != 0) || y % 400 == 0
  }

  function LeapIndex(y: int): nat { if Leap(y) then 1 else 0 }

  function YearLength(y: int): nat { 365 + LeapIndex(y) }

  /** monthlen: from the table for common years, with a day more in the February of a leap year. */
  function MonthLen(m: int, y: int): nat
    requires 0 <= m < 12
  {
    YR_DAYS[0][m + 1] - YR_DAYS[0][m] + if m == 1 && Leap(y) then 1 else 0
  }

  /** Days from 1 January 1970 to 1 January of y, year by year. */
  function DaysBefore(y: int): int
    decreases if y >= EPOCH_YEAR then y - EPOCH_YEAR else EPOCH_YEAR - y
  {
    if y == EPOCH_YEAR then 0
    else if y > EPOCH_YEAR then DaysBefore(y - 1) + YearLength(y - 1)
    else DaysBefore(y + 1) - YearLength(y)
  }

  /** Days from the epoch to the first of month m of year y. */
  function MonthStart(y: int, m: int): int
    requires 0 <= m < 12
  {
    DaysBefore(y) + YR_DAYS[LeapIndex(y)][m]
  }

  /** Sunday is 0. */
  function Weekday(day: int): int { (day + EPOCH_WDAY) % 7 }

  // ---------- the tables agree

  lemma MonthTables(y: int, m: int)
    requires 0 <= m < 12
    ensures MonthLen(m, y) == MON_LENGTHS[LeapIndex(y)][m]
    ensures YR_DAYS[LeapIndex(y)][m + 1] == YR_DAYS[LeapIndex(y)][m] + MonthLen(m, y)
    ensures 28 <= MonthLen(m, y) <= 31
    ensures YR_DAYS[LeapIndex(y)][12] == YearLength(y)
  {
  }

  lemma NextYear(y: int)
    ensures DaysBefore(y + 1) == DaysBefore(y) + YearLength(y)
  {
  }

  lemma NextMonth(y: int, m: int)
    requires 0 <= m < 12
    ensures MonthStart(y, m) + MonthLen(m, y) == if m == 11 then MonthStart(y + 1, 0) else MonthStart(y, m + 1)
  {
  }

  lemma {:induction false} YearsApart(y: int, z: int)
    requires y <= z
    ensures DaysBefore(y) + 365 * (z - y) <= DaysBefore(z)
    decreases z - y
  {
    if y < z {
      NextYear(z - 1);
      YearsApart(y, z - 1);
    }
  }

  /** nleap, with C's division. */
  function NLeap(y: int): int {
    CDiv(y - 1969, 4) - CDiv(y - 1901, 100) + CDiv(y - 1601, 400)
  }

  /** The same with divisions that round down. */
  function FloorLeaps(y: int): int {
    (y - 1969) / 4 - (y - 1901) / 100 + (y - 1601) / 400
  }

  /** Rounding down counts the leap years from the epoch on, in both directions. */
  lemma {:induction false} FloorLeapsCount(y: int)
    ensures 365 * (y - EPOCH_YEAR) + FloorLeaps(y) == DaysBefore(y)
    decreases if y >= EPOCH_YEAR then y - EPOCH_YEAR else EPOCH_YEAR - y
  {
    hide FloorLeaps, LeapIndex, DaysBefore;
    if y > EPOCH_YEAR {
      FloorLeapsCount(y - 1);
      FloorLeapsStep(y - 1);
      NextYear(y - 1);
    } else if y < EPOCH_YEAR {
      FloorLeapsCount(y + 1);
      FloorLeapsStep(y);
      NextYear(y);
    } else {
      FromEpoch();
    }
  }

  lemma FromEpoch()
    ensures DaysBefore(EPOCH_YEAR) == 0 && FloorLeaps(EPOCH_YEAR) == 0
  {
  }

  lemma FloorLeapsStep(y: int)
    ensures FloorLeaps(y + 1) == FloorLeaps(y) + LeapIndex(y)
  {
    CycleStep(y, 4, 492);
    CycleStep(y, 100, 19);
    CycleStep(y, 400, 4);
    Nested(y);
  }

  /** A quotient steps up in the years that its divisor divides. */
  lemma CycleStep(y: int, b: int, k: int)
    requires b > 1
    ensures (y - b * k) / b == (y - b * k - 1) / b + if y % b == 0 then 1 else 0
  {
    QuotientStep(y - b * k - 1, b);
    Shifted(y, b, -k);
    assert y + b * -k == y - b * k;
  }

  lemma Nested(y: int)
    ensures (y % 400 == 0 ==> y % 100 == 0) && (y % 100 == 0 ==> y % 4 == 0)
  {
    if y % 400 == 0 {
      Quotient(y, 100, 4 * (y / 400), 0);
    }
    if y % 100 == 0 {
      Quotient(y, 4, 25 * (y / 100), 0);
    }
  }

  /** The closed form counts the leap years from the epoch on, for every later year. */
  lemma NLeapCounts(y: int)
    requires y >= EPOCH_YEAR
    ensures NLeap(y) == FloorLeaps(y) && 365 * (y - EPOCH_YEAR) + NLeap(y) == DaysBefore(y)
  {
    FloorLeapsCount(y);
    hide DaysBefore;
  }

  lemma QuotientStep(a: int, b: int)
    requires b > 1
    ensures (a + 1) / b == a / b + if (a + 1) % b == 0 then 1 else 0
  {
    var q, r := a / b, a % b;
    if r == b - 1 {
      Quotient(a + 1, b, q + 1, 0);
    } else {
      Quotient(a + 1, b, q, r + 1);
    }
  }

  // ---------- Zeller's congruence

  /** The sum in transtime before the remainder; month 1 is March. */
  function ZellerSum(m1: int, yy0: int): int
    requires yy0 >= 0
  {
    var yy1, yy2 := yy0 / 100, yy0 % 100;
    (26 * m1 - 2) / 10 + 1 + yy2 + yy2 / 4 + yy1 / 4 - 2 * yy1
  }

  lemma LeapByParts(c: int, r: int)
    requires 0 <= r < 100
    ensures Leap(100 * c + r) <==> if r == 0 then c % 4 == 0 else r % 4 == 0
  {
    Quotient(100 * c + r, 100, c, r);
    Quotient(100 * c + r, 4, 25 * c + r / 4, r % 4);
    Quotient(100 * c + r, 400, c / 4, 100 * (c % 4) + r);
  }

  /** One year later the sum has moved by one, or by two into a leap year, but for multiples of 7. */
  lemma ZellerStep(m1: int, y: int)
    requires y >= 0
    ensures var moved := ZellerSum(m1, y + 1) - ZellerSum(m1, y) - 1 - LeapIndex(y + 1);
            moved == if y % 100 < 99 then 0 else -126
  {
    var c, r := y / 100, y % 100;
    if r < 99 {
      Quotient(y + 1, 100, c, r + 1);
      LeapByParts(c, r + 1);
      QuotientStep(r, 4);
    } else {
      Quotient(y + 1, 100, c + 1, 0);
      LeapByParts(c + 1, 0);
      QuotientStep(c, 4);
    }
  }

  lemma SameWeekday(s: int, t: int, d: int, e: int)
    requires s % 7 == (d + EPOCH_WDAY) % 7 && (t - s == e - d - 364 || t - s == e - d - 490)
    ensures t % 7 == (e + EPOCH_WDAY) % 7
  {
  }

  function ZellerMonth(mon: int): int { (mon + 9) % 12 + 1 }

  function ZellerYear(mon: int, year: int): int { if mon <= 2 then year - 1 else year }

  /** The formula gives the weekday of the first of every month from the epoch on. */
  lemma {:induction false} Zeller(mon: int, year: int)
    requires 1 <= mon <= 12 && year >= EPOCH_YEAR
    ensures ZellerSum(ZellerMonth(mon), ZellerYear(mon, year)) % 7 == Weekday(MonthStart(year, mon - 1))
    decreases year
  {
    hide ZellerSum, ZellerMonth, MonthStart, LeapIndex, DaysBefore;
    if year > EPOCH_YEAR {
      Zeller(mon, year - 1);
      var y := ZellerYear(mon, year - 1);
      assert y + 1 == ZellerYear(mon, year);
      ZellerStep(ZellerMonth(mon), y);
      NextYear(year - 1);
      MonthsApart(mon, year - 1);
      SameWeekday(ZellerSum(ZellerMonth(mon), y), ZellerSum(ZellerMonth(mon), y + 1),
                  MonthStart(year - 1, mon - 1), MonthStart(year, mon - 1));
    } else {
      ZellerEpoch(mon);
    }
  }

  lemma MonthsApart(mon: int, year: int)
    requires 1 <= mon <= 12
    ensures MonthStart(year + 1, mon - 1) - MonthStart(year, mon - 1) == 365 + LeapIndex(ZellerYear(mon, year) + 1)
  {
  }

  lemma ZellerEpoch(mon: int)
    requires 1 <= mon <= 12
    ensures ZellerSum(ZellerMonth(mon), ZellerYear(mon, EPOCH_YEAR)) % 7 == Weekday(MonthStart(EPOCH_YEAR, mon - 1))
  {
    hide ZellerSum;
    EpochRemainder(mon);
    assert !Leap(EPOCH_YEAR) && MonthStart(EPOCH_YEAR, mon - 1) == YR_DAYS[0][mon - 1];
    if mon <= 2 {
      EpochSum(mon + 10, 1969);
    } else {
      EpochSum(mon - 2, 1970);
    }
  }

  lemma EpochRemainder(mon: int)
    requires 1 <= mon <= 12
    ensures var m1, yy0 := if mon <= 2 then mon + 10 else mon - 2, if mon <= 2 then 1969 else 1970;
            ((26 * m1 - 2) / 10 + yy0 - 1916) % 7 == (YR_DAYS[0][mon - 1] + EPOCH_WDAY) % 7
  {
  }

  lemma EpochSum(m1: int, yy0: int)
    requires 1 <= m1 <= 12 && 1969 <= yy0 <= 1970
    ensures ZellerSum(m1, yy0) == (26 * m1 - 2) / 10 + yy0 - 1916
  {
  }
}
