/** The proleptic Gregorian calendar that RFC 3339 timestamps are written in. */
module Calendar {

  predicate IsLeapYear(year: int) {
    year % 4 == 0 && (year % 100 != 0 || year % 400 == 0)
  }

  function YearLength(year: int): int {
    if IsLeapYear(year) then 366 else 365
  }

  function MonthLength(year: int, month: int): int {
    if month == 2 then (if IsLeapYear(year) then 29 else 28)
    else if month == 4 || month == 6 || month == 9 || month == 11 then 30
    else 31
  }

  /** Days from the start of year 0 to the start of `year`, counted year by year. */
  function DaysBeforeYear(year: nat): nat {
    if year == 0 then 0 else DaysBeforeYear(year - 1) + YearLength(year - 1)
  }

  /** Days from the start of `year` to the start of `month`, counted month by month. */
  function DaysBeforeMonth(year: int, month: int): nat
    requires 1 <= month
    decreases month
  {
    if month == 1 then 0 else DaysBeforeMonth(year, month - 1) + MonthLength(year, month - 1)
  }

  datatype DateTime = DateTime(year: nat, month: nat, day: nat, hour: nat, minute: nat, second: nat)
  {
    predicate RealDate() {
      1 <= month <= 12 && 1 <= day <= MonthLength(year, month)
    }

    /** A time of day without leap seconds. */
    predicate RealTime() {
      hour < 24 && minute < 60 && second < 60
    }

    function DayNumber(): nat
      requires RealDate()
    {
      DaysBeforeYear(year) + DaysBeforeMonth(year, month) + day - 1
    }

    /** Whole seconds since the start of year 0. */
    function Seconds(): int
      requires RealDate()
    {
      86400 * DayNumber() + 3600 * hour + 60 * minute + second
    }
  }

  /** Field by field, most significant first. */
  predicate Earlier(a: DateTime, b: DateTime) {
    || a.year < b.year
    || (a.year == b.year
        && (|| a.month < b.month
            || (a.month == b.month
                && (|| a.day < b.day
                    || (a.day == b.day
                        && (|| a.hour < b.hour
                            || (a.hour == b.hour
                                && (a.minute < b.minute || (a.minute == b.minute && a.second < b.second)))))))))
  }

  lemma {:induction false} MonthsFillTheYear(year: int)
    ensures DaysBeforeMonth(year, 12) + MonthLength(year, 12) == YearLength(year)
  {
    assert DaysBeforeMonth(year, 4) == DaysBeforeMonth(year, 3) + 31;
    assert DaysBeforeMonth(year, 7) == DaysBeforeMonth(year, 6) + 30;
    assert DaysBeforeMonth(year, 10) == DaysBeforeMonth(year, 9) + 30;
  }

  lemma {:induction false} MonthsAscend(year: int, first: int, second: int)
    requires 1 <= first < second
    ensures DaysBeforeMonth(year, first) + MonthLength(year, first) <= DaysBeforeMonth(year, second)
    decreases second
  {
    if first + 1 < second {
      MonthsAscend(year, first, second - 1);
    }
  }

  lemma {:induction false} YearsAscend(first: nat, second: nat)
    requires first < second
    ensures DaysBeforeYear(first) + YearLength(first) <= DaysBeforeYear(second)
    decreases second
  {
    if first + 1 < second {
      YearsAscend(first, second - 1);
    }
  }

  // ----- The calendar in closed form -----

  /** The divisions step up exactly at the multiples. */
  lemma FourthsStep(n: int)
    ensures (n + 3) / 4 == n / 4 + (if n % 4 == 0 then 0 else 1) && (n + 4) / 4 == n / 4 + 1
  {
  }

  lemma HundredthsStep(n: int)
    ensures (n + 99) / 100 == n / 100 + (if n % 100 == 0 then 0 else 1) && (n + 100) / 100 == n / 100 + 1
  {
  }

  lemma FourHundredthsStep(n: int)
    ensures (n + 399) / 400 == n / 400 + (if n % 400 == 0 then 0 else 1) && (n + 400) / 400 == n / 400 + 1
  {
  }

  lemma Multiples(n: int)
    ensures n % 400 == 0 ==> n % 100 == 0
    ensures n % 100 == 0 ==> n % 4 == 0
  {
  }

  /** Every fourth year is longer by a day, but of the hundredth years every fourth only. */
  lemma {:induction false} YearsInClosedForm(year: nat)
    ensures DaysBeforeYear(year) == 365 * year + (year + 3) / 4 - (year + 99) / 100 + (year + 399) / 400
  {
    if year > 0 {
      var n := year - 1;
      YearsInClosedForm(n);
      FourthsStep(n);
      HundredthsStep(n);
      FourHundredthsStep(n);
      Multiples(n);
      assert year + 3 == n + 4 && year + 99 == n + 100 && year + 399 == n + 400;
    }
  }

  /** From March on, five months have 153 days. */
  lemma MonthsInClosedForm(year: int, month: int)
    requires 1 <= month <= 12
    ensures DaysBeforeMonth(year, month)
            == if month <= 2 then 31 * (month - 1)
               else (153 * (month - 3) + 2) / 5 + 59 + (if IsLeapYear(year) then 1 else 0)
  {
    var leap := if IsLeapYear(year) then 1 else 0;
    assert DaysBeforeMonth(year, 3) == 59 + leap;
    assert DaysBeforeMonth(year, 4) == 90 + leap && DaysBeforeMonth(year, 5) == 120 + leap;
    assert DaysBeforeMonth(year, 6) == 151 + leap && DaysBeforeMonth(year, 7) == 181 + leap;
    assert DaysBeforeMonth(year, 8) == 212 + leap && DaysBeforeMonth(year, 9) == 243 + leap;
    assert DaysBeforeMonth(year, 10) == 273 + leap && DaysBeforeMonth(year, 11) == 304 + leap;
  }

  /** The leap days before March of a year are those of the multiples up to it. */
  lemma LeapDays(year: int)
    ensures (year + 3) / 4 - (year + 99) / 100 + (year + 399) / 400 + (if IsLeapYear(year) then 1 else 0)
            == year / 4 - year / 100 + year / 400 + 1
    ensures (year + 3) / 4 - (year + 99) / 100 + (year + 399) / 400
            == (year - 1) / 4 - (year - 1) / 100 + (year - 1) / 400 + 1
  {
    FourthsStep(year);
    HundredthsStep(year);
    FourHundredthsStep(year);
    Multiples(year);
    FourthsStep(year - 1);
    HundredthsStep(year - 1);
    FourHundredthsStep(year - 1);
  }

  /** The number of a day, in years that begin in March. */
  lemma DaysInClosedForm(date: DateTime)
    requires date.RealDate()
    ensures var late := if date.month <= 2 then 1 else 0;
            var y, m := date.year - late, date.month + 12 * late - 3;
            date.DayNumber() == 365 * y + y / 4 - y / 100 + y / 400 + (153 * m + 2) / 5 + date.day + 59
  {
    hide DaysBeforeYear, DaysBeforeMonth, IsLeapYear;
    YearsInClosedForm(date.year);
    MonthsInClosedForm(date.year, date.month);
    LeapDays(date.year);
  }

  /** A month ends where the next one, or the year, does. */
  lemma MonthsEndWhereTheNextBegins(year: int, month: int)
    requires 1 <= month <= 12
    ensures MonthLength(year, month)
            == (if month == 12 then YearLength(year) else DaysBeforeMonth(year, month + 1)) - DaysBeforeMonth(year, month)
  {
    hide MonthLength;
    MonthsFillTheYear(year);
  }

  /** A day never runs past the end of its year. */
  lemma DayFitsYear(date: DateTime)
    requires date.RealDate()
    ensures DaysBeforeYear(date.year) <= date.DayNumber() < DaysBeforeYear(date.year) + YearLength(date.year)
  {
    MonthsFillTheYear(date.year);
    if date.month < 12 {
      MonthsAscend(date.year, date.month, 12);
    }
  }

  /** Comparing dates field by field compares them by the number of days that passed. */
  lemma EarlierDateEarlierDay(a: DateTime, b: DateTime)
    requires a.RealDate() && b.RealDate()
    requires a.year < b.year || (a.year == b.year && (a.month < b.month || (a.month == b.month && a.day < b.day)))
    ensures a.DayNumber() < b.DayNumber()
  {
    if a.year < b.year {
      DayFitsYear(a);
      DayFitsYear(b);
      YearsAscend(a.year, b.year);
    } else if a.month < b.month {
      MonthsAscend(a.year, a.month, b.month);
    }
  }
}
