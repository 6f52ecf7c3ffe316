/**
 EpochToEfiTime: seconds since 1970-01-01T00:00:00Z to EFI_TIME (section 8.3 of the UEFI Specification)
 by one chain of UINT64 divisions, and its proof against the calendar counted day by day.
 */
module EfiTimes {
  import opened Ints
  import opened Calendar

  /** The fields of EFI_TIME that the conversion writes, with their widths. */
  datatype EfiTime = EfiTime(year: u16, month: u8, day: u8, hour: u8, minute: u8, second: u8, nanosecond: u32)

  /** The locals of the date part, in the order in which they are computed. */
  datatype Locals = Locals(
    j: u64, g: u64, dg: u64, c: u64, dc: u64, b: u64, db: u64, a: u64, da: u64, y: u64, m: u64, d: u64)

  function DateLocals(epochSeconds: u64): Locals {
    var J := Add64(epochSeconds / 86400, 2440588);
    var j := Add64(J, 32044);
    var g := j / 146097;
    var dg := j % 146097;
    var c := Mul64(Add64(dg / 36524, 1), 3) / 4;
    var dc := Sub64(dg, Mul64(c, 36524));
    var b := dc / 1461;
    var db := dc % 1461;
    var a := Mul64(Add64(db / 365, 1), 3) / 4;
    var da := Sub64(db, Mul64(a, 365));
    var y := Add64(Add64(Add64(Mul64(g, 400), Mul64(c, 100)), Mul64(b, 4)), a);
    var m := Sub64(Add64(Mul64(da, 5), 308) / 153, 2);
    var d := Add64(Sub64(da, Mul64(Add64(m, 4), 153) / 5), 122);
    Locals(j, g, dg, c, dc, b, db, a, da, y, m, d)
  }

  /** The locals of the time part: hours, minutes and seconds. */
  function TimeLocals(epochSeconds: u64): (u64, u64, u64) {
    var ss := epochSeconds % 60;
    var a := Sub64(epochSeconds, ss) / 60;
    var mm := a % 60;
    var b := Sub64(a, mm) / 60;
    (b % 24, mm, ss)
  }

  function EpochToEfiTime(epochSeconds: u64): EfiTime {
    var l := DateLocals(epochSeconds);
    var year := Add64(Sub64(l.y, 4800), (l.m + 2) / 12);
    var month := (l.m + 2) % 12 + 1;
    var day := Add64(l.d, 1);
    var (hh, mm, ss) := TimeLocals(epochSeconds);
    EfiTime(year % 0x1_0000, month % 0x100, day % 0x100, hh % 0x100, mm % 0x100, ss % 0x100, 0)
  }

  // ----- The year and the day within it, counted from 1 March -----

  /** Days from 1 March of year -4800 to 1 March of year y - 4800. */
  function MarchStart(y: nat): nat { 365 * y + y / 4 - y / 100 + y / 400 }

  function MarchLength(y: nat): nat { DaysInYear(y + 1) }

  lemma MarchStartStep(y: nat)
    ensures MarchStart(y + 1) == MarchStart(y) + MarchLength(y)
  {
    LeapCount(y + 1);
    hide IsLeap;
    NextMultiple(y + 1, 4);
    NextMultiple(y + 1, 100);
    NextMultiple(y + 1, 400);
  }

  lemma {:induction false} MarchStartGrows(p: nat, q: nat)
    requires p < q
    ensures MarchStart(p) + MarchLength(p) <= MarchStart(q)
  {
    MarchStartStep(q - 1);
    if p < q - 1 {
      MarchStartGrows(p, q - 1);
    }
  }

  /** Number of days from 1 March of year -4800 to 1970-01-01. */
  const EPOCH_DAY: nat := 2440588 + 32044

  /**
   The division chain splits the day count exactly into a March-based year and a day of that year,
   and none of its subtractions up to there wraps.
   */
  lemma ChainSplitsTheDay(t: u64)
    ensures var l := DateLocals(t);
      && l.j == t / 86400 + EPOCH_DAY == MarchStart(l.y) + l.da
      && l.y < TWO64 - 4800 && l.da < MarchLength(l.y) <= 366
      && l.c * 36524 <= l.dg && l.a * 365 <= l.db
  {
    hide MarchStart, IsLeap, Add64, Sub64, Mul64;
    var l := DateLocals(t);
    DayNumberOfEpoch(t);
    Centuries(l.dg);
    Quads(l.dc, l.c);
    YearNumber(l.g, l.c, l.b, l.a);
    CyclesOfYear(l.g, l.c, l.b, l.a);
  }

  /** The first subtraction of d always wraps, and the sum with 122 is still the exact day of the month. */
  lemma ChainSplitsTheMonth(t: u64)
    ensures var l := DateLocals(t);
      && 2 <= (l.da * 5 + 308) / 153 && l.m == (l.da * 5 + 308) / 153 - 2 <= 11
      && l.da < (l.m + 4) * 153 / 5
      && l.d == l.da - (l.m + 4) * 153 / 5 + 122
  {
    hide MarchStart, MarchLength;
    ChainSplitsTheDay(t);
    MonthOfMarchDay(DateLocals(t).da);
  }

  lemma DayNumberOfEpoch(t: u64)
    ensures Add64(Add64(t / 86400, 2440588), 32044) == t / 86400 + EPOCH_DAY
  {
  }

  lemma Centuries(dg: u64)
    requires dg < 146097
    ensures var c := Mul64(Add64(dg / 36524, 1), 3) / 4;
      && 0 <= c <= 3
      && Mul64(c, 36524) == c * 36524 <= dg
      && 0 <= Sub64(dg, c * 36524) == dg - c * 36524 <= 36524
      && (c < 3 ==> dg - c * 36524 < 36524)
  {
  }

  lemma Quads(dc: u64, c: int)
    requires 0 <= c <= 3 && dc <= 36524 && (c < 3 ==> dc < 36524)
    ensures var b, db := dc / 1461, dc % 1461;
      var a := Mul64(Add64(db / 365, 1), 3) / 4;
      && 0 <= b <= 24 && 0 <= a <= 3
      && Mul64(a, 365) == a * 365 <= db
      && 0 <= Sub64(db, a * 365) == db - a * 365 <= 365
      && (db - a * 365 == 365 ==> a == 3 && (b < 24 || c == 3))
  {
  }

  lemma YearNumber(g: u64, c: u64, b: u64, a: u64)
    requires g < 0x1_0000_0000_0000 && c <= 3 && b <= 24 && a <= 3
    ensures Add64(Add64(Add64(Mul64(g, 400), Mul64(c, 100)), Mul64(b, 4)), a) == 400 * g + 100 * c + 4 * b + a
  {
  }

  lemma CyclesOfYear(g: int, c: int, b: int, a: int)
    requires 0 <= g && 0 <= c <= 3 && 0 <= b <= 24 && 0 <= a <= 3
    ensures var y := 400 * g + 100 * c + 4 * b + a;
      && MarchStart(y) == 146097 * g + 36524 * c + 1461 * b + 365 * a
      && (IsLeap(y + 1) <==> a == 3 && (b < 24 || c == 3))
  {
    var y := 400 * g + 100 * c + 4 * b + a;
    YearsBy4(y, 100 * g + 25 * c + b, a);
    YearsBy100(y, 4 * g + c, 4 * b + a);
    YearsBy400(y, g, 100 * c + 4 * b + a);
  }

  lemma YearsBy4(y: nat, q: nat, r: nat)
    requires r < 4 && y == 4 * q + r
    ensures y / 4 == q && ((y + 1) % 4 == 0 <==> r == 3)
  {
  }

  lemma YearsBy100(y: nat, q: nat, r: nat)
    requires r < 100 && y == 100 * q + r
    ensures y / 100 == q && ((y + 1) % 100 == 0 <==> r == 99)
  {
  }

  lemma YearsBy400(y: nat, q: nat, r: nat)
    requires r < 400 && y == 400 * q + r
    ensures y / 400 == q && ((y + 1) % 400 == 0 <==> r == 399)
  {
  }

  lemma MonthOfMarchDay(da: u64)
    requires da <= 365
    ensures var m := Sub64(Add64(Mul64(da, 5), 308) / 153, 2);
      && 2 <= (da * 5 + 308) / 153 && m == (da * 5 + 308) / 153 - 2 <= 11
      && da < (m + 4) * 153 / 5
      && Add64(Sub64(da, Mul64(Add64(m, 4), 153) / 5), 122) == da - (m + 4) * 153 / 5 + 122 >= 0
  {
  }

  // ----- The chain is the calendar -----

  /** The month, counted from March, of day da of a March-based year. */
  function MarchMonth(da: int): int { (da * 5 + 308) / 153 - 2 }

  /** The day within that month, counted from 0. */
  function MarchDay(da: int): int { da - (MarchMonth(da) + 4) * 153 / 5 + 122 }

  /** Month lengths from March on, with the longest February. */
  function MarchMonthLength(m: int): nat {
    if m == 11 then 29 else if m == 1 || m == 3 || m == 6 || m == 8 then 30 else 31
  }

  lemma MarchMonthStep(da: nat)
    requires da < 365
    ensures 0 <= MarchMonth(da) <= 11 && 0 <= MarchDay(da)
    ensures MarchDay(da) < MarchMonthLength(MarchMonth(da))
    ensures if MarchDay(da) + 1 < MarchMonthLength(MarchMonth(da))
            then MarchMonth(da + 1) == MarchMonth(da) && MarchDay(da + 1) == MarchDay(da) + 1
            else MarchMonth(da + 1) == MarchMonth(da) + 1 && MarchDay(da + 1) == 0
  {
  }

  lemma LeapEvery400(y: nat)
    requires 4799 <= y
    ensures IsLeap(y + 1) <==> IsLeap(y - 4799)
  {
    ModShift(y - 4799, 4, 1200);
    ModShift(y - 4799, 100, 48);
    ModShift(y - 4799, 400, 12);
  }

  /** The date that the last formulas give for day da of the March-based year y. */
  function MarchDate(y: nat, da: nat): Date
    requires 4800 <= y && da <= 365
  {
    MonthOfMarchDay(da);
    var m := MarchMonth(da);
    Date(y - 4800 + (m + 2) / 12, (m + 2) % 12 + 1, MarchDay(da) + 1)
  }

  lemma MarchDateStep(y: nat, da: nat)
    requires 6769 <= y && da < MarchLength(y) && (y == 6769 ==> 306 <= da)
    ensures IsValid(MarchDate(y, da))
    ensures NextDay(MarchDate(y, da)) == if da + 1 < MarchLength(y) then MarchDate(y, da + 1) else MarchDate(y + 1, 0)
  {
    hide MarchMonth, MarchDay, IsLeap;
    LeapEvery400(y);
    MarchFirst(0);
    February(da);
    if da < 365 {
      MarchMonthStep(da);
    }
    if y == 6769 {
      JanuaryOn(da);
    }
  }

  lemma MarchFirst(da: nat)
    requires da == 0
    ensures MarchMonth(da) == 0 && MarchDay(da) == 0
  {
  }

  /** The last month of the March-based year starts on its day 337. */
  lemma February(da: nat)
    requires da <= 365
    ensures 0 <= MarchMonth(da) <= 11
    ensures MarchMonth(da) == 11 <==> 337 <= da
    ensures 337 <= da ==> MarchDay(da) == da - 337
  {
  }

  lemma JanuaryOn(da: nat)
    requires 306 <= da <= 365
    ensures 10 <= MarchMonth(da)
  {
  }

  lemma JanuaryFirst()
    ensures MarchDate(6769, 306) == Date(1970, 1, 1)
  {
  }

  lemma MarchStartBeyond(y: nat)
    ensures y < 6769 ==> MarchStart(y) + MarchLength(y) <= EPOCH_DAY - 306
    ensures y == 6769 ==> MarchStart(y) == EPOCH_DAY - 306
    ensures y > 6769 ==> EPOCH_DAY < MarchStart(y)
  {
    var y0 := 6769;
    assert MarchStart(y0) == EPOCH_DAY - 306;
    if y < y0 {
      MarchStartGrows(y, y0);
    } else if y0 < y {
      MarchStartGrows(y0, y);
    }
  }

  lemma {:induction false} MarchDateIsCalendarDate(days: nat, y: nat, da: nat)
    requires MarchStart(y) + da == days + EPOCH_DAY && da < MarchLength(y)
    ensures 6769 <= y && (y == 6769 ==> 306 <= da)
    ensures MarchDate(y, da) == DateAfter(days)
    decreases days
  {
    hide MarchDate, NextDay, MarchLength;
    MarchStartBeyond(y);
    if days == 0 {
      MarchStartBeyond(y);
      JanuaryFirst();
    } else if da > 0 {
      MarchDateIsCalendarDate(days - 1, y, da - 1);
      MarchDateStep(y, da - 1);
    } else {
      MarchStartStep(y - 1);
      MarchDateIsCalendarDate(days - 1, y - 1, MarchLength(y - 1) - 1);
      MarchDateStep(y - 1, MarchLength(y - 1) - 1);
    }
  }

  /**
   For every 64-bit second count the conversion gives the calendar date reached by stepping
   whole days from 1970-01-01, with the year cut to its 16-bit field, and the time of day.
   */
  lemma ConversionIsCalendar(t: u64)
    ensures var time, date := EpochToEfiTime(t), DateAfter(t / 86400);
      && time.year == date.year % 0x1_0000 && time.month == date.month && time.day == date.day
      && time.hour < 24 && time.minute < 60 && time.second < 60 && time.nanosecond == 0
      && time.hour * 3600 + time.minute * 60 + time.second == t % 86400
  {
    hide EpochToEfiTime, DateAfter;
    DateFields(t);
    TimeFields(t);
  }

  lemma DateFields(t: u64)
    ensures var time, date := EpochToEfiTime(t), DateAfter(t / 86400);
      time.year == date.year % 0x1_0000 && time.month == date.month && time.day == date.day
  {
    hide DateLocals, DateAfter, TimeLocals;
    DateOfChain(t);
    var l := DateLocals(t);
    YearField(l.y, l.m);
  }

  lemma YearField(y: u64, m: u64)
    requires m <= 11 && 6769 <= y < TWO64 - 4800
    ensures Add64(Sub64(y, 4800), (m + 2) / 12) == y - 4800 + (m + 2) / 12
  {
  }

  lemma TimeFields(t: u64)
    ensures var time := EpochToEfiTime(t);
      && time.hour < 24 && time.minute < 60 && time.second < 60 && time.nanosecond == 0
      && time.hour * 3600 + time.minute * 60 + time.second == t % 86400
  {
    hide DateLocals, TimeLocals;
    TimeOfDay(t);
  }

  lemma DateOfChain(t: u64)
    ensures var l := DateLocals(t);
      && l.m <= 11 && l.d <= 30 && 6769 <= l.y < Add64(l.y, 4800)
      && DateAfter(t / 86400) == Date(l.y - 4800 + (l.m + 2) / 12, (l.m + 2) % 12 + 1, l.d + 1)
  {
    hide DateLocals, DateAfter, MarchStart, MarchLength;
    var l := DateLocals(t);
    ChainSplitsTheDay(t);
    ChainSplitsTheMonth(t);
    MarchDateIsCalendarDate(t / 86400, l.y, l.da);
  }

  lemma TimeOfDay(t: u64)
    ensures var (hh, mm, ss) := TimeLocals(t);
      0 <= hh < 24 && 0 <= mm < 60 && 0 <= ss < 60 && hh * 3600 + mm * 60 + ss == t % 86400
  {
    MinutesAndSeconds(t);
    var a, b := t / 60, t / 60 / 60;
    DivUnique(t, 86400, b / 24, b % 24 * 3600 + a % 60 * 60 + t % 60);
  }

  lemma MinutesAndSeconds(t: u64)
    ensures TimeLocals(t) == (t / 60 / 60 % 24, t / 60 % 60, t % 60)
  {
    var a, b := t / 60, t / 60 / 60;
    DivUnique(Sub64(t, t % 60), 60, a, 0);
    DivUnique(Sub64(a, a % 60), 60, b, 0);
  }

  // ----- Going back, and order -----

  /** The first second whose year, 65536, no longer fits the 16-bit Year field. */
  const YEAR_OVERFLOW: nat := 2005949145600

  function DateOf(time: EfiTime): Date { Date(time.year, time.month, time.day) }

  function EfiTimeToEpoch(time: EfiTime): nat
    requires IsValid(DateOf(time))
  {
    DayNumber(DateOf(time)) * 86400 + time.hour * 3600 + time.minute * 60 + time.second
  }

  predicate TimeBefore(a: EfiTime, b: EfiTime) {
    || Before(DateOf(a), DateOf(b))
    || (DateOf(a) == DateOf(b) && (a.hour < b.hour
        || (a.hour == b.hour && (a.minute < b.minute || (a.minute == b.minute && a.second < b.second)))))
  }

  lemma {:induction false} YearSumGrows(p: nat, q: nat)
    requires 1970 <= p <= q
    ensures DaysBeforeYear(p) <= DaysBeforeYear(q)
  {
    if p < q {
      YearSumGrows(p, q - 1);
    }
  }

  lemma {:induction false} DayWithinYear(y: nat, m: nat)
    requires 1 <= m <= 12
    ensures DaysBeforeMonth(y, m) + DaysInMonth(y, m) <= DaysInYear(y)
    decreases 12 - m
  {
    if m < 12 {
      DayWithinYear(y, m + 1);
    } else {
      MonthsFillTheYear(y);
    }
  }

  /** A valid date has a year below 65536 exactly when its day number is below that of 65536-01-01. */
  lemma YearFitsIff(d: Date)
    requires IsValid(d)
    ensures d.year < 0x1_0000 <==> DayNumber(d) * 86400 < YEAR_OVERFLOW
  {
    YearSumClosedForm(0x1_0000);
    DayWithinYear(d.year, d.month);
    if d.year < 0x1_0000 {
      YearSumGrows(d.year + 1, 0x1_0000);
    } else {
      YearSumGrows(0x1_0000, d.year);
    }
  }

  /** The conversion can be undone exactly on the seconds before year 65536. */
  lemma ConversionInvertible(t: u64)
    ensures t < YEAR_OVERFLOW
      <==> IsValid(DateOf(EpochToEfiTime(t))) && EfiTimeToEpoch(EpochToEfiTime(t)) == t
  {
    hide EpochToEfiTime, DateAfter, DayNumber;
    var time, date := EpochToEfiTime(t), DateAfter(t / 86400);
    ConversionIsCalendar(t);
    DayNumberInverts(t / 86400);
    YearFitsIff(date);
    if IsValid(DateOf(time)) {
      YearFitsIff(DateOf(time));
    }
  }

  lemma ConversionOrdered(t1: u64, t2: u64)
    requires t1 < t2 < YEAR_OVERFLOW
    ensures TimeBefore(EpochToEfiTime(t1), EpochToEfiTime(t2))
  {
    hide EpochToEfiTime, DateAfter, DayNumber;
    var n1, n2 := t1 / 86400, t2 / 86400;
    ConversionIsCalendar(t1);
    ConversionIsCalendar(t2);
    DayNumberInverts(n1);
    DayNumberInverts(n2);
    YearFitsIff(DateAfter(n1));
    YearFitsIff(DateAfter(n2));
    if n1 < n2 {
      LaterDaysAreLater(n1, n2);
    }
  }
}
