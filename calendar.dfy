/**
  Calendar dates for the classifier: instants are whole milliseconds since
  1970-01-01T00:00:00 (the value of a JavaScript Date), read in a time zone
  without offset. A civil date (year, month, day) is the proleptic Gregorian
  calendar date; day numbers count days from 1970-01-01.
 */
module Calendar {

  import opened Wrappers
  import Decimal

  /** 1000 * 60 * 60 * 24, the divisor used for day differences. */
  const MsPerDay: int := 86_400_000

  /** Day number 0 is the first day of this year. */
  const EpochYear: int := 1970

  datatype Civil = Civil(year: int, month: int, day: int)

  predicate IsLeapYear(y: int) {
    y % 4 == 0 && (y % 100 != 0 || y % 400 == 0)
  }

  function DaysInYear(y: int): int {
    if IsLeapYear(y) then 366 else 365
  }

  function DaysInMonth(y: int, m: int): int
    requires 1 <= m <= 12
  {
    if m == 2 then (if IsLeapYear(y) then 29 else 28)
    else if m == 4 || m == 6 || m == 9 || m == 11 then 30
    else 31
  }

  predicate ValidCivil(c: Civil) {
    1 <= c.month <= 12 && 1 <= c.day <= DaysInMonth(c.year, c.month)
  }

  /** Days of year y that lie before the first day of month m; m = 13 stands for the next year. */
  function DaysBeforeMonth(y: int, m: int): int
    requires 1 <= m <= 13
  {
    var common :=
      if m == 1 then 0 else if m == 2 then 31 else if m == 3 then 59
      else if m == 4 then 90 else if m == 5 then 120 else if m == 6 then 151
      else if m == 7 then 181 else if m == 8 then 212 else if m == 9 then 243
      else if m == 10 then 273 else if m == 11 then 304 else if m == 12 then 334
      else 365;
    if m > 2 && IsLeapYear(y) then common + 1 else common
  }

  lemma DaysBeforeNextMonth(y: int, m: int)
    requires 1 <= m <= 12
    ensures DaysBeforeMonth(y, m + 1) == DaysBeforeMonth(y, m) + DaysInMonth(y, m)
    ensures DaysBeforeMonth(y, 1) == 0 && DaysBeforeMonth(y, 13) == DaysInYear(y)
  {
  }

  lemma {:induction false} DaysBeforeMonthMonotone(y: int, m1: int, m2: int)
    requires 1 <= m1 <= m2 <= 13
    ensures DaysBeforeMonth(y, m1) <= DaysBeforeMonth(y, m2)
    decreases m2 - m1
  {
    if m1 < m2 {
      DaysBeforeNextMonth(y, m1);
      DaysBeforeMonthMonotone(y, m1 + 1, m2);
    }
  }

  /** A month ends within its year. */
  lemma DaysBeforeMonthBound(y: int, m: int)
    requires 1 <= m <= 12
    ensures DaysBeforeMonth(y, m) + DaysInMonth(y, m) <= DaysInYear(y)
  {
    DaysBeforeNextMonth(y, m);
    DaysBeforeMonthMonotone(y, m + 1, 13);
  }

  /** Day number of January 1st of year y: days from 1970-01-01, negative before it. */
  function DaysBeforeYear(y: int): int
    decreases if y < EpochYear then EpochYear - y else y - EpochYear
  {
    if y == EpochYear then 0
    else if y > EpochYear then DaysBeforeYear(y - 1) + DaysInYear(y - 1)
    else DaysBeforeYear(y + 1) - DaysInYear(y)
  }

  lemma DaysBeforeNextYear(y: int)
    ensures DaysBeforeYear(y + 1) == DaysBeforeYear(y) + DaysInYear(y)
  {
  }

  lemma {:induction false} DaysBeforeYearMonotone(y1: int, y2: int)
    requires y1 < y2
    ensures DaysBeforeYear(y1) + DaysInYear(y1) <= DaysBeforeYear(y2)
    decreases y2 - y1
  {
    DaysBeforeNextYear(y1);
    if y1 + 1 < y2 {
      DaysBeforeYearMonotone(y1 + 1, y2);
    }
  }

  /** The day number of a civil date. */
  function DaysFromCivil(c: Civil): int
    requires 1 <= c.month <= 12
  {
    DaysBeforeYear(c.year) + DaysBeforeMonth(c.year, c.month) + c.day - 1
  }

  /** The date that lies r days after the first day of month m of year y, within that year. */
  function FromMonth(y: int, m: int, r: int): (c: Civil)
    requires 1 <= m <= 12 && 0 <= r < DaysInYear(y) - DaysBeforeMonth(y, m)
    ensures ValidCivil(c) && c.year == y
    ensures DaysBeforeMonth(y, c.month) + c.day - 1 == DaysBeforeMonth(y, m) + r
    decreases 12 - m
  {
    DaysBeforeNextMonth(y, m);
    if r < DaysInMonth(y, m) then Civil(y, m, r + 1)
    else FromMonth(y, m + 1, r - DaysInMonth(y, m))
  }

  /** The date that lies r days (possibly negative or beyond the year) after January 1st of year y. */
  function YearWalk(y: int, r: int): (c: Civil)
    ensures ValidCivil(c) && DaysFromCivil(c) == DaysBeforeYear(y) + r
    decreases if r < 0 then 366 - r else r
  {
    if r < 0 then
      DaysBeforeNextYear(y - 1);
      YearWalk(y - 1, r + DaysInYear(y - 1))
    else if r >= DaysInYear(y) then
      DaysBeforeNextYear(y);
      YearWalk(y + 1, r - DaysInYear(y))
    else
      DaysBeforeNextMonth(y, 1);
      FromMonth(y, 1, r)
  }

  /** The civil date of day number n. */
  function CivilFromDays(n: int): (c: Civil)
    ensures ValidCivil(c) && DaysFromCivil(c) == n
  {
    YearWalk(EpochYear, n)
  }

  lemma {:induction false} FromMonthReaches(y: int, m0: int, m: int, d: int)
    requires 1 <= m0 <= m <= 12 && 1 <= d <= DaysInMonth(y, m)
    ensures DaysBeforeMonth(y, m) - DaysBeforeMonth(y, m0) + d - 1 < DaysInYear(y) - DaysBeforeMonth(y, m0)
    ensures FromMonth(y, m0, DaysBeforeMonth(y, m) - DaysBeforeMonth(y, m0) + d - 1) == Civil(y, m, d)
    decreases m - m0
  {
    DaysBeforeMonthBound(y, m);
    if m0 < m {
      DaysBeforeNextMonth(y, m0);
      DaysBeforeMonthMonotone(y, m0 + 1, m);
      FromMonthReaches(y, m0 + 1, m, d);
    }
  }

  lemma {:induction false} YearWalkReaches(y0: int, y: int, r: int)
    requires 0 <= r < DaysInYear(y)
    ensures YearWalk(y0, DaysBeforeYear(y) - DaysBeforeYear(y0) + r) == FromMonth(y, 1, r)
    decreases if y0 < y then y - y0 else y0 - y
  {
    DaysBeforeNextMonth(y, 1);
    if y0 < y {
      DaysBeforeYearMonotone(y0, y);
      DaysBeforeNextYear(y0);
      YearWalkReaches(y0 + 1, y, r);
    } else if y0 > y {
      DaysBeforeYearMonotone(y, y0);
      DaysBeforeNextYear(y0 - 1);
      YearWalkReaches(y0 - 1, y, r);
    }
  }

  /** Every valid civil date is the civil date of its own day number. */
  lemma CivilFromDaysOfCivil(c: Civil)
    requires ValidCivil(c)
    ensures CivilFromDays(DaysFromCivil(c)) == c
  {
    var r := DaysBeforeMonth(c.year, c.month) + c.day - 1;
    DaysBeforeNextMonth(c.year, 1);
    FromMonthReaches(c.year, 1, c.month, c.day);
    YearWalkReaches(EpochYear, c.year, r);
  }

  /**
    Moving an instant back by whole days (what Date.setDate(getDate() - k) does)
    moves its civil date back by k days within the month when the day allows it.
   */
  lemma SubtractDaysWithinMonth(c: Civil, k: int)
    requires ValidCivil(c) && 0 <= k < c.day
    ensures CivilFromDays(DaysFromCivil(c) - k) == Civil(c.year, c.month, c.day - k)
  {
    CivilFromDaysOfCivil(Civil(c.year, c.month, c.day - k));
  }

  /** The civil date on which instant t falls. */
  function CivilOfInstant(t: int): (c: Civil)
    ensures ValidCivil(c)
    ensures DaysFromCivil(c) * MsPerDay <= t < (DaysFromCivil(c) + 1) * MsPerDay
  {
    CivilFromDays(t / MsPerDay)
  }

  /**
    date.setDate(date.getDate() + k): the same time of day k civil days later
    (earlier for negative k), the month and year rolling over as needed.
   */
  function AddDays(t: int, k: int): int
  {
    t + k * MsPerDay
  }

  /** AddDays keeps the time of day and moves the civil date by exactly k days. */
  lemma AddDaysCivil(t: int, k: int)
    ensures AddDays(t, k) / MsPerDay == t / MsPerDay + k
    ensures AddDays(t, k) % MsPerDay == t % MsPerDay
    ensures CivilOfInstant(AddDays(t, k)) == CivilFromDays(t / MsPerDay + k)
  {
  }

  /** The first millisecond of civil date c. */
  function Midnight(c: Civil): int
    requires 1 <= c.month <= 12
  {
    DaysFromCivil(c) * MsPerDay
  }

  /** dd-mm-yy: three fields joined by '-'. */
  function DashJoin(dd: string, mm: string, yy: string): (s: string)
    requires |dd| == 2 && |mm| == 2
    ensures |s| == 6 + |yy| && s[2] == '-' && s[5] == '-'
    ensures s[..2] == dd && s[3..5] == mm && s[6..] == yy
  {
    dd + "-" + mm + "-" + yy
  }

  /** The day and month of c zero-padded to two digits and the year as String(year) writes it, joined by '-'. */
  function FormatCivil(c: Civil): (r: string)
    requires ValidCivil(c)
    ensures |r| == 6 + |Decimal.IntToString(c.year)|
    ensures 1000 <= c.year <= 9999 ==> |r| == 10
    ensures r[2] == '-' && r[5] == '-'
    ensures Decimal.AllDigits(r[..2]) && Decimal.AllDigits(r[3..5])
  {
    Decimal.PadTwoDigits(c.day);
    Decimal.PadTwoDigits(c.month);
    var yy := Decimal.IntToString(c.year);
    DashJoin(Decimal.PadStart(Decimal.NatToString(c.day), 2, '0'),
             Decimal.PadStart(Decimal.NatToString(c.month), 2, '0'),
             yy)
  }

  /** formatDate(date): the dd-mm-yyyy text of the civil date on which instant t falls. */
  function FormatDate(t: int): (r: string)
    ensures |r| >= 7 && r[2] == '-' && r[5] == '-'
  {
    FormatCivil(CivilOfInstant(t))
  }

  /** Every instant of civil date c, from its midnight up to the next, falls on c. */
  lemma CivilOfInstantWithinDay(c: Civil, t: int)
    requires ValidCivil(c) && Midnight(c) <= t < Midnight(c) + MsPerDay
    ensures CivilOfInstant(t) == c
  {
    assert t / MsPerDay == DaysFromCivil(c);
    CivilFromDaysOfCivil(c);
  }

  /** formatDate writes the civil date c for every instant of that day. */
  lemma FormatDateWithinDay(c: Civil, t: int)
    requires ValidCivil(c) && Midnight(c) <= t < Midnight(c) + MsPerDay
    ensures FormatDate(t) == FormatCivil(c)
  {
    CivilOfInstantWithinDay(c, t);
  }

  /** Reads a dd-mm-yyyy text back into its day, month and year. */
  function ParseFormatted(s: string): Option<Civil>
  {
    if |s| >= 7 && s[2] == '-' && s[5] == '-'
       && Decimal.AllDigits(s[..2]) && Decimal.AllDigits(s[3..5])
    then
      match Decimal.ParseInt(s[6..])
      case Some(y) => Some(Civil(y, Decimal.DigitsValue(s[3..5]), Decimal.DigitsValue(s[..2])))
      case None => None
    else None
  }

  /** The text formatDate writes holds exactly the day, the month and the year of the date. */
  lemma ParseFormatCivil(c: Civil)
    requires ValidCivil(c)
    ensures ParseFormatted(FormatCivil(c)) == Some(c)
  {
    Decimal.PadTwoDigits(c.day);
    Decimal.PadTwoDigits(c.month);
    Decimal.ParseIntToString(c.year);
  }

  /** formatDate's text reads back as the day, month and year of the instant's civil date. */
  lemma FormatDateReadsBack(t: int)
    ensures ParseFormatted(FormatDate(t)) == Some(CivilOfInstant(t))
  {
    ParseFormatCivil(CivilOfInstant(t));
  }
}
