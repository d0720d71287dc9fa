/** The civil calendar behind Go's time.Time in UTC: days and minutes are counted from 1 January
    of the year 1, in both directions, on the Gregorian calendar. */
module Calendar {

  predicate Leap(year: int) {
    year % 4 == 0 && (year % 100 != 0 || year % 400 == 0)
  }

  /** Days in a month of a year that is not a leap year. */
  function CommonDays(month: int): int {
    if month == 2 then 28
    else if month == 4 || month == 6 || month == 9 || month == 11 then 30
    else 31
  }

  function DaysIn(year: int, month: int): int {
    if month == 2 && Leap(year) then 29 else CommonDays(month)
  }

  function YearLength(year: int): int {
    if Leap(year) then 366 else 365
  }

  /** Days from day 0 to 1 January of the year. */
  function DaysBeforeYear(year: int): int {
    var y := year - 1;
    365 * y + y / 4 - y / 100 + y / 400
  }

  /** Days from 1 January to the first of the month. */
  function DaysBeforeMonth(year: int, month: int): int
    requires 1 <= month <= 13
    decreases month
  {
    if month == 1 then 0 else DaysBeforeMonth(year, month - 1) + DaysIn(year, month - 1)
  }

  datatype Date = Date(year: int, month: int, day: int)

  predicate IsDate(d: Date) {
    1 <= d.month <= 12 && 1 <= d.day <= DaysIn(d.year, d.month)
  }

  function DayNumber(d: Date): int
    requires 1 <= d.month <= 12
  {
    DaysBeforeYear(d.year) + DaysBeforeMonth(d.year, d.month) + d.day - 1
  }

  /** Sunday is 0; day 0 was a Monday. */
  function Weekday(day: int): int {
    (day + 1) % 7
  }

  lemma FourthOf(year: int)
    ensures year / 4 - (year - 1) / 4 == if year % 4 == 0 then 1 else 0
  {
  }

  lemma HundredthOf(year: int)
    ensures year / 100 - (year - 1) / 100 == if year % 100 == 0 then 1 else 0
  {
    var q, r := year / 100, year % 100;
    assert year - 1 == 100 * q + (r - 1) && year - 1 == 100 * (q - 1) + (r + 99);
  }

  lemma FourHundredthOf(year: int)
    ensures year / 400 - (year - 1) / 400 == if year % 400 == 0 then 1 else 0
  {
    var q, r := year / 400, year % 400;
    assert year - 1 == 400 * q + (r - 1) && year - 1 == 400 * (q - 1) + (r + 399);
  }

  lemma FourTimes(k: int)
    ensures (4 * k) % 4 == 0
  {
  }

  lemma HundredTimes(k: int)
    ensures (100 * k) % 100 == 0
  {
  }

  lemma CenturiesDivide(year: int)
    ensures year % 100 == 0 ==> year % 4 == 0
    ensures year % 400 == 0 ==> year % 100 == 0
  {
    FourTimes(25 * (year / 100));
    HundredTimes(4 * (year / 400));
  }

  lemma NextYear(year: int)
    ensures DaysBeforeYear(year + 1) == DaysBeforeYear(year) + YearLength(year)
  {
    FourthOf(year);
    HundredthOf(year);
    FourHundredthOf(year);
    CenturiesDivide(year);
  }

  lemma YearIsItsMonths(year: int)
    ensures DaysBeforeMonth(year, 13) == YearLength(year)
  {
    assert DaysBeforeMonth(year, 3) == DaysIn(year, 1) + DaysIn(year, 2);
    assert DaysBeforeMonth(year, 5) == DaysBeforeMonth(year, 3) + 61;
    assert DaysBeforeMonth(year, 7) == DaysBeforeMonth(year, 5) + 61;
    assert DaysBeforeMonth(year, 9) == DaysBeforeMonth(year, 7) + 62;
    assert DaysBeforeMonth(year, 11) == DaysBeforeMonth(year, 9) + 61;
  }

  lemma {:induction false} YearsInOrder(a: int, b: int)
    requires a <= b
    ensures DaysBeforeYear(a) <= DaysBeforeYear(b)
    decreases b - a
  {
    hide DaysBeforeYear;
    if a < b {
      YearsInOrder(a, b - 1);
      NextYear(b - 1);
    }
  }

  lemma {:induction false} MonthsInOrder(year: int, a: int, b: int)
    requires 1 <= a <= b <= 13
    ensures DaysBeforeMonth(year, a) <= DaysBeforeMonth(year, b)
    decreases b - a
  {
    if a < b {
      MonthsInOrder(year, a, b - 1);
    }
  }

  // ----- from the count to the date -----

  function YearFrom(day: int, year: int): (r: int)
    requires DaysBeforeYear(year) <= day
    ensures DaysBeforeYear(r) <= day < DaysBeforeYear(r + 1)
    decreases day - DaysBeforeYear(year)
  {
    NextYear(year);
    if day < DaysBeforeYear(year + 1) then year else YearFrom(day, year + 1)
  }

  function YearOf(day: int): (r: int)
    ensures DaysBeforeYear(r) <= day < DaysBeforeYear(r + 1)
  {
    var guess := if day >= 0 then day / 366 + 1 else day / 365 + 1;
    assert DaysBeforeYear(guess) <= day;
    YearFrom(day, guess)
  }

  function MonthFrom(year: int, rest: int, month: int): (r: int)
    requires 1 <= month <= 12 && DaysBeforeMonth(year, month) <= rest < DaysBeforeMonth(year, 13)
    ensures 1 <= r <= 12 && DaysBeforeMonth(year, r) <= rest < DaysBeforeMonth(year, r + 1)
    decreases 12 - month
  {
    if rest < DaysBeforeMonth(year, month + 1) then month else MonthFrom(year, rest, month + 1)
  }

  function DateOf(day: int): (d: Date)
    ensures IsDate(d) && DayNumber(d) == day
  {
    var year := YearOf(day);
    var rest := day - DaysBeforeYear(year);
    NextYear(year);
    YearIsItsMonths(year);
    var month := MonthFrom(year, rest, 1);
    Date(year, month, rest - DaysBeforeMonth(year, month) + 1)
  }

  /** Different dates have different numbers, in the order of the dates. */
  lemma NumbersInOrder(a: Date, b: Date)
    requires IsDate(a) && IsDate(b)
    requires a.year < b.year || (a.year == b.year && (a.month < b.month || (a.month == b.month && a.day < b.day)))
    ensures DayNumber(a) < DayNumber(b)
  {
    hide DaysBeforeYear;
    if a.year < b.year {
      YearsInOrder(a.year + 1, b.year);
      NextYear(a.year);
      YearIsItsMonths(a.year);
      MonthsInOrder(a.year, a.month + 1, 13);
      MonthsInOrder(b.year, 1, b.month);
    } else if a.month < b.month {
      MonthsInOrder(a.year, a.month + 1, b.month);
    }
  }

  lemma DateOfNumber(d: Date)
    requires IsDate(d)
    ensures DateOf(DayNumber(d)) == d
  {
    var e := DateOf(DayNumber(d));
    if e != d {
      if e.year < d.year || (e.year == d.year && (e.month < d.month || (e.month == d.month && e.day < d.day))) {
        NumbersInOrder(e, d);
      } else {
        NumbersInOrder(d, e);
      }
    }
  }

  /** 2 March 2026 is a Monday, and weekdays follow one another. */
  lemma KnownWeekdays(day: int)
    ensures Weekday(DayNumber(Date(2026, 3, 2))) == 1
    ensures Weekday(day + 1) == (Weekday(day) + 1) % 7
  {
    assert DaysBeforeMonth(2026, 2) == 31 && DaysBeforeMonth(2026, 3) == 59;
  }

  // ----- minutes -----

  const DAY_MINUTES: int := 1440

  function DayOfMinute(t: int): int {
    t / DAY_MINUTES
  }

  function HourOf(t: int): int {
    t % DAY_MINUTES / 60
  }

  function MinuteOf(t: int): int {
    t % 60
  }

  function At(d: Date, hour: int, minute: int): int
    requires 1 <= d.month <= 12
  {
    DayNumber(d) * DAY_MINUTES + hour * 60 + minute
  }

  lemma PartsOfAt(d: Date, hour: int, minute: int)
    requires 1 <= d.month <= 12 && 0 <= hour < 24 && 0 <= minute < 60
    ensures DayOfMinute(At(d, hour, minute)) == DayNumber(d)
    ensures HourOf(At(d, hour, minute)) == hour && MinuteOf(At(d, hour, minute)) == minute
  {
    hide DayNumber;
    SplitMinutes(DayNumber(d), hour, minute);
  }

  lemma SplitMinutes(day: int, hour: int, minute: int)
    requires 0 <= hour < 24 && 0 <= minute < 60
    ensures var t := day * 1440 + hour * 60 + minute;
            t / 1440 == day && t % 1440 == hour * 60 + minute && t % 1440 / 60 == hour && t % 60 == minute
  {
    var t := day * 1440 + hour * 60 + minute;
    assert t == 60 * (24 * day + hour) + minute;
  }

  lemma MinuteParts(t: int)
    ensures t == DayOfMinute(t) * DAY_MINUTES + HourOf(t) * 60 + MinuteOf(t)
    ensures 0 <= HourOf(t) < 24 && 0 <= MinuteOf(t) < 60
  {
    var day, rest := t / 1440, t % 1440;
    assert t == 60 * (24 * day + rest / 60) + rest % 60;
  }

  /** time.AddDate for whole years: 29 February of a year that lacks it becomes 1 March. */
  function AddYears(t: int, years: int): int {
    var d := DateOf(DayOfMinute(t));
    var day := DaysBeforeYear(d.year + years) + DaysBeforeMonth(d.year + years, d.month) + d.day - 1;
    day * DAY_MINUTES + t % DAY_MINUTES
  }
}
