/**
 * The UTC calendar behind `time.gmtime`: days since 1970-01-01 to a
 * proleptic Gregorian (year, month, day) and back, with integer
 * arithmetic only (H. Hinnant's civil-from-days and days-from-civil).
 * Years are counted from 1 March inside 400-year eras of 146097 days.
 */
module Calendar {
  datatype Date = Date(year: int, month: int, day: int)

  predicate IsLeapYear(y: int) { y % 4 == 0 && (y % 100 != 0 || y % 400 == 0) }

  function DaysInMonth(y: int, m: int): int
    requires 1 <= m <= 12
  {
    if m == 2 then (if IsLeapYear(y) then 29 else 28)
    else if m == 4 || m == 6 || m == 9 || m == 11 then 30
    else 31
  }

  /** A real calendar day: month 1..12 and day within that month. */
  predicate ValidDate(d: Date) { 1 <= d.month <= 12 && 1 <= d.day <= DaysInMonth(d.year, d.month) }

  /** Days from 1 March of year 0 of an era to 1 March of year `yoe` of that era. */
  function DaysBeforeYearOfEra(yoe: int): int { 365 * yoe + yoe / 4 - yoe / 100 }

  /** The year of the era in which day `doe` of the era falls. */
  function YearOfEra(doe: int): int { (doe - doe / 1460 + doe / 36524 - doe / 146096) / 365 }

  /** Months counted from March (0) to February (11), and back. */
  function MonthFromShifted(mp: int): int { if mp < 10 then mp + 3 else mp - 9 }
  function ShiftedFromMonth(m: int): int { if m > 2 then m - 3 else m + 9 }
  /** Days from 1 March to the first of shifted month `mp`. */
  function DaysBeforeShiftedMonth(mp: int): int { (153 * mp + 2) / 5 }

  /** The calendar day `z` days after 1970-01-01; every day count names a real calendar day. */
  function CivilFromDays(z: int): (r: Date)
    ensures ValidDate(r)
  {
    var zz := z + 719468;
    EraDate(zz / 146097, zz % 146097)
  }

  /** Day `doe` (0..146096) of the 400-year era `era`, each era starting on 1 March. */
  function EraDate(era: int, doe: int): (r: Date)
    requires 0 <= doe <= 146096
    ensures ValidDate(r)
  {
    YearOfEraBounds(doe);
    var yoe := YearOfEra(doe);
    var doy := doe - DaysBeforeYearOfEra(yoe);
    ShiftedMonthBounds(doy);
    LeapYearInEra(era, yoe);
    var mp := (5 * doy + 2) / 153;
    var m := MonthFromShifted(mp);
    Date(yoe + era * 400 + (if m <= 2 then 1 else 0), m, doy - DaysBeforeShiftedMonth(mp) + 1)
  }

  /** The number of days from 1970-01-01 to `d`. */
  function DaysFromCivil(d: Date): int
  {
    var y := d.year - (if d.month <= 2 then 1 else 0);
    var era := y / 400;
    var yoe := y % 400;
    var doy := DaysBeforeShiftedMonth(ShiftedFromMonth(d.month)) + d.day - 1;
    era * 146097 + DaysBeforeYearOfEra(yoe) + doy - 719468
  }

  /** With the year of era written as 100 * c + 4 * q + r, the estimate of `YearOfEra` is exact. */
  lemma YearOfEraExact(c: int, q: int, r: int, doy: int)
    requires 0 <= c <= 3 && 0 <= q <= 24 && 0 <= r <= 3
    requires 0 <= doy <= 365
    requires doy == 365 ==> r == 3 && (q != 24 || c == 3)
    ensures var doe := 36524 * c + 1461 * q + 365 * r + doy;
      YearOfEra(doe) == 100 * c + 4 * q + r &&
      DaysBeforeYearOfEra(100 * c + 4 * q + r) == 36524 * c + 1461 * q + 365 * r
  {
    var y := 100 * c + 4 * q + r;
    var doe := 36524 * c + 1461 * q + 365 * r + doy;
    assert y / 4 == 25 * c + q;
    assert y / 100 == c;
    var e1 := (24 * c + q + 365 * r + doy) / 1460;
    assert doe / 1460 == 25 * c + q + e1;
    assert e1 == if 24 * c + q + 365 * r + doy >= 1460 then 1 else 0;
    var e2 := if doe == 146096 then 1 else 0;
    assert doe / 36524 == c + e2;
    assert doe / 146096 == e2;
    assert doe - doe / 1460 + doe / 36524 - doe / 146096 == 365 * y + (doy - e1);
  }

  /** The day of the year left over is 0..365, and 365 only at the end of a leap year. */
  lemma YearOfEraBounds(doe: int)
    requires 0 <= doe <= 146096
    ensures var yoe := YearOfEra(doe); var doy := doe - DaysBeforeYearOfEra(yoe);
      0 <= yoe <= 399 && 0 <= doy <= 365 &&
      (doy == 365 ==> (yoe + 1) % 4 == 0 && ((yoe + 1) % 100 != 0 || yoe + 1 == 400))
  {
    var c := if doe / 36524 < 3 then doe / 36524 else 3;
    var rem1 := doe - 36524 * c;
    assert 0 <= rem1 <= 36524 && (rem1 == 36524 ==> c == 3);
    var q := rem1 / 1461;
    var rem2 := rem1 % 1461;
    var r := if rem2 / 365 < 3 then rem2 / 365 else 3;
    var doy := rem2 - 365 * r;
    assert doy == 365 ==> r == 3 && rem2 == 1460;
    YearOfEraExact(c, q, r, doy);
    if doy == 365 {
      LeapEndOfCycle(c, q);
    }
  }

  /** The year closing a four-year cycle is a leap year unless it closes a century other than the 400th year. */
  lemma LeapEndOfCycle(c: int, q: int)
    requires 0 <= c <= 3 && 0 <= q <= 24 && (q != 24 || c == 3)
    ensures var y := 100 * c + 4 * q + 4; y % 4 == 0 && (y % 100 != 0 || y == 400)
  {
    ModShift4(25 * c + q + 1, 0);
    if q < 24 {
      ModShift100(c, 4 * q + 4);
    }
  }

  /** The month and day read off a day of the year are within range. */
  lemma ShiftedMonthBounds(doy: int)
    requires 0 <= doy <= 365
    ensures var mp := (5 * doy + 2) / 153;
      0 <= mp <= 11 &&
      1 <= doy - DaysBeforeShiftedMonth(mp) + 1 &&
      doy - DaysBeforeShiftedMonth(mp) + 1 <= (if mp == 11 then (if doy == 365 then 29 else 28)
                                               else DaysInMonth(2001, MonthFromShifted(mp)))
  {
  }

  lemma ModShift4(k: int, b: int)
    ensures (4 * k + b) % 4 == b % 4
  {
  }

  lemma ModShift100(k: int, b: int)
    ensures (100 * k + b) % 100 == b % 100
  {
  }

  lemma ModShift400(k: int, b: int)
    ensures (400 * k + b) % 400 == b % 400
  {
  }

  /** Whether a February lies in a leap year depends only on the year of the era. */
  lemma LeapYearInEra(era: int, yoe: int)
    requires 0 <= yoe <= 399
    ensures IsLeapYear(era * 400 + yoe + 1) <==> (yoe + 1) % 4 == 0 && ((yoe + 1) % 100 != 0 || yoe + 1 == 400)
  {
    ModShift4(era * 100, yoe + 1);
    ModShift100(era * 4, yoe + 1);
    ModShift400(era, yoe + 1);
  }

  /** Counting the days back to the calendar day gives the day count again. */
  lemma CivilFromDaysInverse(z: int)
    ensures DaysFromCivil(CivilFromDays(z)) == z
  {
    var zz := z + 719468;
    var era := zz / 146097;
    var doe := zz % 146097;
    YearOfEraBounds(doe);
    var yoe := YearOfEra(doe);
    var doy := doe - DaysBeforeYearOfEra(yoe);
    ShiftedMonthBounds(doy);
    var mp := (5 * doy + 2) / 153;
    var d := CivilFromDays(z);
    assert d == EraDate(era, doe);
    assert ShiftedFromMonth(d.month) == mp;
    var y := d.year - (if d.month <= 2 then 1 else 0);
    YearSplit(y, era, yoe);
    assert DaysBeforeShiftedMonth(ShiftedFromMonth(d.month)) + d.day - 1 == doy;
  }

  /** A year splits into whole eras and the year of the era. */
  lemma YearSplit(y: int, era: int, yoe: int)
    requires 0 <= yoe < 400 && y == yoe + era * 400
    ensures y / 400 == era && y % 400 == yoe
  {
  }

  /** From 1970-01-01 to 9999-12-31 the year has four digits. */
  lemma CivilYearBounds(z: int)
    requires 0 <= z
    ensures z <= 2932896 ==> 1970 <= CivilFromDays(z).year <= 9999
  {
    if z > 2932896 {
      return;
    }
    var zz := z + 719468;
    var era := zz / 146097;
    var doe := zz % 146097;
    YearOfEraBounds(doe);
    var yoe := YearOfEra(doe);
    var doy := doe - DaysBeforeYearOfEra(yoe);
    ShiftedMonthBounds(doy);
    assert 4 <= era <= 24;
    if era == 4 {
      assert doe >= 135080;
      assert DaysBeforeYearOfEra(yoe) >= 134715;
      assert 4 * DaysBeforeYearOfEra(yoe) <= 1461 * yoe;
      if yoe == 369 {
        assert DaysBeforeYearOfEra(yoe) == 134774;
      }
    } else if era == 24 {
      assert doe <= 146036;
      if yoe == 399 {
        assert DaysBeforeYearOfEra(yoe) == 145731;
      }
    }
  }

  /**
   * The calendar day after `d`, counted the way a wall calendar turns its
   * pages: the next day of the month, else the first of the next month,
   * else 1 January of the next year.
   */
  function NextDate(d: Date): (r: Date)
    requires 1 <= d.month <= 12
    ensures r.year == d.year || (r.year == d.year + 1 && d.month == 12 && r.month == 1 && r.day == 1)
  {
    if d.day < DaysInMonth(d.year, d.month) then Date(d.year, d.month, d.day + 1)
    else if d.month < 12 then Date(d.year, d.month + 1, 1)
    else Date(d.year + 1, 1, 1)
  }

  /** A year of the era (from 1 March) has 366 days when the next February has a 29th, else 365. */
  lemma YearOfEraLength(k: int)
    ensures DaysBeforeYearOfEra(k + 1) - DaysBeforeYearOfEra(k)
            == 365 + (if (k + 1) % 4 == 0 then 1 else 0) - (if (k + 1) % 100 == 0 then 1 else 0)
  {
    QuotientStep4(k);
    QuotientStep100(k);
  }

  /** Counting one further either completes one more group of four or does not. */
  lemma QuotientStep4(k: int)
    ensures (k + 1) / 4 == k / 4 + (if (k + 1) % 4 == 0 then 1 else 0)
  {
  }

  /** Counting one further either completes one more century or does not. */
  lemma QuotientStep100(k: int)
    ensures (k + 1) / 100 == k / 100 + (if (k + 1) % 100 == 0 then 1 else 0)
  {
  }

  /** From the last day of February to 1 March is one day, in leap and common years alike. */
  lemma FebToMar(y: int)
    ensures DaysFromCivil(Date(y, 3, 1)) == DaysFromCivil(Date(y, 2, DaysInMonth(y, 2))) + 1
  {
    var era := (y - 1) / 400;
    var k := (y - 1) % 400;
    LastOfFebruary(y, era, k);
    if k < 399 {
      MarchFirst(y, era, k + 1);
      YearOfEraThroughFebruary(k);
    } else {
      MarchFirst(y, era + 1, 0);
      assert DaysBeforeYearOfEra(399) == 145731;
    }
  }

  /** Inside an era, the next year of the era starts the day after the last of February. */
  lemma YearOfEraThroughFebruary(k: int)
    requires 0 <= k < 399
    ensures DaysBeforeYearOfEra(k + 1)
            == DaysBeforeYearOfEra(k) + 337
               + (if (k + 1) % 4 == 0 && ((k + 1) % 100 != 0 || k + 1 == 400) then 29 else 28)
  {
    YearOfEraLength(k);
    if (k + 1) % 100 == 0 {
      assert (k + 1) % 4 == 0;
    }
  }

  /** The last day of February closes year `k` of its era. */
  lemma LastOfFebruary(y: int, era: int, k: int)
    requires 0 <= k < 400 && y - 1 == k + era * 400
    ensures DaysFromCivil(Date(y, 2, DaysInMonth(y, 2)))
            == era * 146097 + DaysBeforeYearOfEra(k) + 336 - 719468
               + (if (k + 1) % 4 == 0 && ((k + 1) % 100 != 0 || k + 1 == 400) then 29 else 28)
  {
    YearSplit(y - 1, era, k);
    LeapYearInEra(era, k);
    assert DaysBeforeShiftedMonth(ShiftedFromMonth(2)) == 337;
  }

  /** 1 March opens year `yoe` of its era. */
  lemma MarchFirst(y: int, era: int, yoe: int)
    requires 0 <= yoe < 400 && y == yoe + era * 400
    ensures DaysFromCivil(Date(y, 3, 1)) == era * 146097 + DaysBeforeYearOfEra(yoe) - 719468
  {
    YearSplit(y, era, yoe);
  }

  /** The day count of the next calendar day is one more: days-from-civil agrees with the wall calendar. */
  lemma DaysFromCivilNext(d: Date)
    requires ValidDate(d)
    ensures ValidDate(NextDate(d))
    ensures DaysFromCivil(NextDate(d)) == DaysFromCivil(d) + 1
  {
    if d.day < DaysInMonth(d.year, d.month) {
    } else if d.month == 2 {
      FebToMar(d.year);
    } else if d.month < 12 {
      assert DaysBeforeShiftedMonth(ShiftedFromMonth(d.month + 1))
             == DaysBeforeShiftedMonth(ShiftedFromMonth(d.month)) + DaysInMonth(d.year, d.month);
    } else {
      assert DaysBeforeShiftedMonth(ShiftedFromMonth(1)) == DaysBeforeShiftedMonth(ShiftedFromMonth(12)) + 31;
    }
  }

  /** A day of the year within shifted month `mp` reads back as that month. */
  lemma ShiftedMonthOf(mp: int, doy: int)
    requires 0 <= mp <= 11 && DaysBeforeShiftedMonth(mp) <= doy
    requires doy - DaysBeforeShiftedMonth(mp) < (if mp == 11 then 29 else DaysInMonth(2001, MonthFromShifted(mp)))
    ensures (5 * doy + 2) / 153 == mp
  {
  }

  /** A leap year of the era (`yoe + 1` counted from 1 March) closes a four-year cycle. */
  lemma LeapYearOfEraDigits(yoe: int)
    requires 0 <= yoe <= 399
    requires (yoe + 1) % 4 == 0 && ((yoe + 1) % 100 != 0 || yoe + 1 == 400)
    ensures yoe % 4 == 3 && (yoe % 100 / 4 != 24 || yoe / 100 == 3)
  {
  }

  /** A day count splits into whole eras and the day of the era. */
  lemma EraSplit(zz: int, era: int, doe: int)
    requires 0 <= doe < 146097 && zz == era * 146097 + doe
    ensures zz / 146097 == era && zz % 146097 == doe
  {
  }

  /** The day `doy` of year `yoe` of an era, counted as `CivilFromDays` counts it. */
  lemma CivilFromEraDay(era: int, yoe: int, doy: int, mp: int)
    requires 0 <= yoe <= 399 && 0 <= doy <= 365
    requires doy == 365 ==> (yoe + 1) % 4 == 0 && ((yoe + 1) % 100 != 0 || yoe + 1 == 400)
    requires mp == (5 * doy + 2) / 153
    ensures 0 <= DaysBeforeYearOfEra(yoe) + doy <= 146096
    ensures EraDate(era, DaysBeforeYearOfEra(yoe) + doy)
      == Date(yoe + era * 400 + (if MonthFromShifted(mp) <= 2 then 1 else 0), MonthFromShifted(mp),
              doy - DaysBeforeShiftedMonth(mp) + 1)
  {
    var c := yoe / 100;
    var q := yoe % 100 / 4;
    var r := yoe % 4;
    assert yoe == 100 * c + 4 * q + r;
    if doy == 365 {
      LeapYearOfEraDigits(yoe);
    }
    YearOfEraExact(c, q, r, doy);
    assert YearOfEra(DaysBeforeYearOfEra(yoe) + doy) == yoe;
  }

  /** 29 February falls in a year of the era that closes a leap cycle. */
  lemma LeapDayOfEra(year: int)
    requires IsLeapYear(year)
    ensures var yoe := (year - 1) % 400;
      (yoe + 1) % 4 == 0 && ((yoe + 1) % 100 != 0 || yoe + 1 == 400)
  {
    LeapYearInEra((year - 1) / 400, (year - 1) % 400);
  }

  /** Reading a real calendar day back from its day count gives the same day. */
  lemma DaysFromCivilInverse(d: Date)
    requires ValidDate(d)
    ensures CivilFromDays(DaysFromCivil(d)) == d
  {
    var y := d.year - (if d.month <= 2 then 1 else 0);
    var era := y / 400;
    var yoe := y % 400;
    var mp := ShiftedFromMonth(d.month);
    var doy := DaysBeforeShiftedMonth(mp) + d.day - 1;
    var doe := DaysBeforeYearOfEra(yoe) + doy;
    var z := DaysFromCivil(d);
    assert z + 719468 == era * 146097 + doe;
    assert MonthFromShifted(mp) == d.month;
    ShiftedMonthOf(mp, doy);
    if doy == 365 {
      assert d.month == 2 && d.day == 29 && IsLeapYear(d.year);
      LeapDayOfEra(d.year);
    }
    CivilFromEraDay(era, yoe, doy, mp);
    CivilFromEraSplit(z, era, doe);
    DateOfParts(d, era, yoe, mp, doy);
  }

  /** `CivilFromDays` of a day count written as whole eras plus a day of the era. */
  lemma CivilFromEraSplit(z: int, era: int, doe: int)
    requires 0 <= doe < 146097 && z + 719468 == era * 146097 + doe
    ensures CivilFromDays(z) == EraDate(era, doe)
  {
    EraSplit(z + 719468, era, doe);
  }

  /** The date `EraDate` assembles from the era, the year of the era and the day of the year is `d`. */
  lemma DateOfParts(d: Date, era: int, yoe: int, mp: int, doy: int)
    requires MonthFromShifted(mp) == d.month && doy == DaysBeforeShiftedMonth(mp) + d.day - 1
    requires yoe + era * 400 == d.year - (if d.month <= 2 then 1 else 0)
    ensures Date(yoe + era * 400 + (if MonthFromShifted(mp) <= 2 then 1 else 0), MonthFromShifted(mp),
                 doy - DaysBeforeShiftedMonth(mp) + 1) == d
  {
  }

  /** `CivilFromDays` steps through the days exactly as the wall calendar turns its pages. */
  lemma CivilFromDaysNext(z: int)
    ensures CivilFromDays(z + 1) == NextDate(CivilFromDays(z))
  {
    var d := CivilFromDays(z);
    CivilFromDaysInverse(z);
    DaysFromCivilNext(d);
    CivilFromDaysAt(NextDate(d), z + 1);
  }

  /** The calendar day whose day count is `z` is the one `CivilFromDays(z)` names. */
  lemma CivilFromDaysAt(d: Date, z: int)
    requires ValidDate(d) && DaysFromCivil(d) == z
    ensures CivilFromDays(z) == d
  {
    DaysFromCivilInverse(d);
  }

  /** Day 0 is 1 January 1970. */
  lemma EpochSample()
    ensures CivilFromDays(0) == Date(1970, 1, 1)
    ensures DaysFromCivil(Date(1970, 1, 1)) == 0
  {
    assert (0 + 719468) / 146097 == 4 && (0 + 719468) % 146097 == 135080;
    assert 135080 / 1460 == 92 && 135080 / 36524 == 3 && 135080 / 146096 == 0;
    assert YearOfEra(135080) == 369;
    assert DaysBeforeYearOfEra(369) == 134774;
    assert 1969 / 400 == 4 && 1969 % 400 == 369;
    assert (5 * 306 + 2) / 153 == 10;
    assert DaysBeforeShiftedMonth(10) == 306;
  }

  /** Day 2932896 is 31 December 9999. */
  lemma LastFourDigitDaySample()
    ensures CivilFromDays(2932896) == Date(9999, 12, 31)
  {
    assert (2932896 + 719468) / 146097 == 24;
    assert (2932896 + 719468) % 146097 == 146036;
    assert YearOfEra(146036) == 399;
    assert DaysBeforeYearOfEra(399) == 145731;
    assert (5 * 305 + 2) / 153 == 9;
    assert DaysBeforeShiftedMonth(9) == 275;
  }
}
