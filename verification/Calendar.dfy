/** The Gregorian calendar, counted one day at a time from 1970-01-01. */
module Calendar {
  import opened Ints

  datatype Date = Date(year: nat, month: nat, day: nat)

  predicate IsLeap(y: nat) {
    y % 4 == 0 && (y % 100 != 0 || y % 400 == 0)
  }

  function DaysInYear(y: nat): nat {
    if IsLeap(y) then 366 else 365
  }

  function DaysInMonth(y: nat, m: nat): nat
    requires 1 <= m <= 12
  {
    if m == 2 then (if IsLeap(y) then 29 else 28)
    else if m == 4 || m == 6 || m == 9 || m == 11 then 30
    else 31
  }

  predicate IsValid(d: Date) {
    && 1970 <= d.year
    && 1 <= d.month <= 12
    && 1 <= d.day <= DaysInMonth(d.year, d.month)
  }

  function NextDay(d: Date): (r: Date)
    requires IsValid(d)
    ensures IsValid(r)
  {
    if d.day < DaysInMonth(d.year, d.month) then Date(d.year, d.month, d.day + 1)
    else if d.month < 12 then Date(d.year, d.month + 1, 1)
    else Date(d.year + 1, 1, 1)
  }

  function DateAfter(days: nat): (r: Date)
    ensures IsValid(r)
  {
    if days == 0 then Date(1970, 1, 1) else NextDay(DateAfter(days - 1))
  }

  predicate Before(a: Date, b: Date) {
    || a.year < b.year
    || (a.year == b.year && (a.month < b.month || (a.month == b.month && a.day < b.day)))
  }

  // Day numbers, by summing the lengths of whole years and whole months.

  function DaysBeforeYear(y: nat): nat
    requires 1970 <= y
  {
    if y == 1970 then 0 else DaysBeforeYear(y - 1) + DaysInYear(y - 1)
  }

  function DaysBeforeMonth(y: nat, m: nat): nat
    requires 1 <= m <= 12
  {
    if m == 1 then 0 else DaysBeforeMonth(y, m - 1) + DaysInMonth(y, m - 1)
  }

  function DayNumber(d: Date): nat
    requires IsValid(d)
  {
    DaysBeforeYear(d.year) + DaysBeforeMonth(d.year, d.month) + (d.day - 1)
  }

  lemma {:induction false} MonthsFillTheYear(y: nat)
    ensures DaysBeforeMonth(y, 12) + DaysInMonth(y, 12) == DaysInYear(y)
  {
    assert DaysBeforeMonth(y, 2) == 31;
    assert DaysBeforeMonth(y, 3) == 31 + DaysInMonth(y, 2);
    assert DaysBeforeMonth(y, 5) == DaysBeforeMonth(y, 3) + 61;
    assert DaysBeforeMonth(y, 7) == DaysBeforeMonth(y, 5) + 61;
    assert DaysBeforeMonth(y, 9) == DaysBeforeMonth(y, 7) + 62;
    assert DaysBeforeMonth(y, 11) == DaysBeforeMonth(y, 9) + 61;
  }

  lemma NextDayNumber(d: Date)
    requires IsValid(d)
    ensures DayNumber(NextDay(d)) == DayNumber(d) + 1
  {
    MonthsFillTheYear(d.year);
    hide DaysInMonth, DaysInYear;
  }

  /** Summing whole years and months undoes counting day by day. */
  lemma {:induction false} DayNumberInverts(days: nat)
    ensures DayNumber(DateAfter(days)) == days
  {
    if days > 0 {
      hide DayNumber, NextDay, IsValid;
      DayNumberInverts(days - 1);
      NextDayNumber(DateAfter(days - 1));
    } else {
      assert DateAfter(0) == Date(1970, 1, 1);
    }
  }

  lemma {:induction false} LaterDaysAreLater(i: nat, j: nat)
    requires i < j
    ensures Before(DateAfter(i), DateAfter(j))
  {
    if i + 1 < j {
      LaterDaysAreLater(i, j - 1);
    }
  }

  /** The closed form of the year sum. */
  function YearSum(y: nat): int
    requires 1970 <= y
  {
    365 * (y - 1970) + ((y - 1) / 4 - 492) - ((y - 1) / 100 - 19) + ((y - 1) / 400 - 4)
  }

  lemma YearSumStep(y: nat)
    requires 1970 < y
    ensures YearSum(y) == YearSum(y - 1) + DaysInYear(y - 1)
  {
    LeapCount(y - 1);
    hide IsLeap;
    NextMultiple(y - 1, 4);
    NextMultiple(y - 1, 100);
    NextMultiple(y - 1, 400);
  }

  /** Every 4th year, but not every 100th, but every 400th. */
  lemma LeapCount(y: nat)
    ensures (if IsLeap(y) then 1 else 0)
      == (if y % 4 == 0 then 1 else 0) - (if y % 100 == 0 then 1 else 0) + (if y % 400 == 0 then 1 else 0)
  {
    ModShift(y % 100, 4, 25 * (y / 100));
    ModShift(y % 400, 100, 4 * (y / 400));
  }

  lemma YearSumStart(y: nat)
    requires y == 1970
    ensures YearSum(y) == 0
  {
  }

  lemma {:induction false} YearSumClosedForm(y: nat)
    requires 1970 <= y
    ensures DaysBeforeYear(y) == YearSum(y)
  {
    hide YearSum, DaysInYear;
    if y > 1970 {
      YearSumStep(y);
      YearSumClosedForm(y - 1);
    } else {
      YearSumStart(y);
    }
  }
}
