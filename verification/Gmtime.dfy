/** The closed-form calendar conversion of lib/posix/c_lang_support_r/gmtime_r.c. */
module Gmtime {
  import opened Gregorian

  /** C division and remainder truncate toward zero. */
  function CDiv(a: int, b: int): int
    requires b > 0
  {
    if a >= 0 then a / b else -((-a) / b)
  }

  function CRem(a: int, b: int): int
    requires b > 0
  {
    a - b * CDiv(a, b)
  }

  // ---------------------------------------------------------------- the intermediate values

  function Shifted(z: int): int { z + 719468 }

  function Era(z: int): int {
    CDiv(if Shifted(z) >= 0 then Shifted(z) else Shifted(z) - 146096, 146097)
  }

  function DayOfEra(z: int): int { Shifted(z) - Era(z) * 146097 }

  function YearOfEra(doe: int): int { (doe - doe / 1460 + doe / 36524 - doe / 146096) / 365 }

  function DayOfYear(doe: int, yoe: int): int { doe - (365 * yoe + yoe / 4 - yoe / 100) }

  function MonthFromMarch(doy: int): int { (5 * doy + 2) / 153 }

  /** The era is a floor division, so the day of era is its remainder, also before the epoch. */
  lemma EraIsFloor(z: int)
    ensures Era(z) == Shifted(z) / 146097 && DayOfEra(z) == Shifted(z) % 146097
    ensures 0 <= DayOfEra(z) <= 146096
  {}

  /** Days of an era before its `y`th March-based year. */
  function YearStart(y: int): int { 365 * y + y / 4 - y / 100 }

  /** Within the `c`th century and the `q`th four-year cycle of it, the `r`th year has been found. */
  lemma YearOfCycle(c: int, q: int, r: int, doy: int)
    requires 0 <= c <= 3 && 0 <= q <= 24 && 0 <= r <= 3
    requires 0 <= doy <= 365 && (doy == 365 ==> r == 3 && (q < 24 || c == 3))
    ensures var y := 100 * c + 4 * q + r;
            YearOfEra(YearStart(y) + doy) == y && YearStart(y) == 36524 * c + 1461 * q + 365 * r
  {
    var y := 100 * c + 4 * q + r;
    assert y / 4 == 25 * c + q;
    assert y / 100 == c;
    var doe := 36524 * c + 1461 * q + 365 * r + doy;
    assert YearStart(y) + doy == doe;
    CycleQuotients(c, q, r, doy);
  }

  lemma CycleQuotients(c: int, q: int, r: int, doy: int)
    requires 0 <= c <= 3 && 0 <= q <= 24 && 0 <= r <= 3
    requires 0 <= doy <= 365 && (doy == 365 ==> r == 3 && (q < 24 || c == 3))
    ensures var doe := 36524 * c + 1461 * q + 365 * r + doy;
            0 <= doe - doe / 1460 + doe / 36524 - doe / 146096 - 365 * (100 * c + 4 * q + r) < 365
  {
    var doe := 36524 * c + 1461 * q + 365 * r + doy;
    var a := doe / 1460;
    assert 1460 * a <= doe < 1460 * a + 1460;
    assert doe / 36524 == if doe == 146096 then 4 else c;
    assert doe / 146096 == if doe == 146096 then 1 else 0;
  }

  /** Every day of an era lies in exactly one such year. */
  lemma CycleOf(doe: int) returns (c: int, q: int, r: int, doy: int)
    requires 0 <= doe <= 146096
    ensures 0 <= c <= 3 && 0 <= q <= 24 && 0 <= r <= 3
    ensures 0 <= doy <= 365 && (doy == 365 ==> r == 3 && (q < 24 || c == 3))
    ensures doe == 36524 * c + 1461 * q + 365 * r + doy
  {
    c := if doe == 146096 then 3 else doe / 36524;
    var doc := doe - 36524 * c;
    q := doc / 1461;
    var dof := doc - 1461 * q;
    r := if dof == 1460 then 3 else dof / 365;
    doy := dof - 365 * r;
  }

  /** The year-of-era formula finds the March-based year of a day, the 366th day occurring only
      at the end of a leap year. */
  lemma YearOfEraCorrect(doe: int)
    requires 0 <= doe <= 146096
    ensures var yoe := YearOfEra(doe); var doy := DayOfYear(doe, yoe);
            0 <= yoe <= 399 && 0 <= doy <= 365 && (doy == 365 ==> IsLeap(yoe + 1))
  {
    var c, q, r, doy := CycleOf(doe);
    YearOfCycle(c, q, r, doy);
    if doy == 365 { LastDayIsLeap(c, q); }
  }

  lemma LastDayIsLeap(c: int, q: int)
    requires 0 <= c <= 3 && 0 <= q <= 24 && (q < 24 || c == 3)
    ensures IsLeap(100 * c + 4 * q + 4)
  {
    var y := 100 * c + 4 * q + 4;
    if q < 24 { assert y / 100 == c; }
  }

  // ---------------------------------------------------------------- the date

  function MonthOf(mp: int): int { mp + (if mp < 10 then 3 else -9) }

  function DayOf(doy: int, mp: int): int { doy - (153 * mp + 2) / 5 + 1 }

  /** Day `doy` of the March-based year `y`. */
  function FromMarch(y: int, doy: int): Date {
    var m := MonthOf(MonthFromMarch(doy));
    Date(y + (if m <= 2 then 1 else 0), m, DayOf(doy, MonthFromMarch(doy)))
  }

  function CivilOf(z: int): Date {
    var yoe := YearOfEra(DayOfEra(z));
    FromMarch(yoe + Era(z) * 400, DayOfYear(DayOfEra(z), yoe))
  }

  function YearDay(doy: int, yoe: int): int {
    if doy >= 306 then doy - 306
    else doy + 59 + (if (yoe % 4 == 0 && yoe % 100 != 0) || yoe == 0 then 1 else 0)
  }

  function Leaps(y: int): int { y / 4 - y / 100 + y / 400 }

  lemma LeapStep(y: int)
    ensures Leaps(y) == Leaps(y - 1) + (if IsLeap(y) then 1 else 0)
  {
    assert y / 4 == (y - 1) / 4 + (if y % 4 == 0 then 1 else 0);
    assert y / 100 == (y - 1) / 100 + (if y % 100 == 0 then 1 else 0);
    assert y / 400 == (y - 1) / 400 + (if y % 400 == 0 then 1 else 0);
    assert y % 400 == 0 ==> y % 100 == 0;
    assert y % 100 == 0 ==> y % 4 == 0;
  }

  lemma {:induction false} DaysToYearClosed(y: int)
    ensures DaysToYear(y) == 365 * (y - 1970) + Leaps(y - 1) - 477
    decreases if y < 1970 then 1970 - y else y - 1970
  {
    if y > 1970 {
      DaysToYearClosed(y - 1);
      LeapStep(y - 1);
    } else if y < 1970 {
      DaysToYearClosed(y + 1);
      LeapStep(y);
    }
  }

  lemma EraQuotients(yoe: int, era: int)
    ensures (yoe + 400 * era) / 4 == yoe / 4 + 100 * era
    ensures (yoe + 400 * era) / 100 == yoe / 100 + 4 * era
    ensures (yoe + 400 * era) / 400 == yoe / 400 + era
  {}

  /** Leap years repeat every 400 years. */
  lemma EraShiftsIsLeap(yoe: int, era: int)
    ensures IsLeap(yoe + 400 * era) == IsLeap(yoe)
  {
    EraQuotients(yoe, era);
    var y := yoe + 400 * era;
    assert y % 4 == y - 4 * (y / 4) && y % 100 == y - 100 * (y / 100) && y % 400 == y - 400 * (y / 400);
    assert yoe % 4 == yoe - 4 * (yoe / 4) && yoe % 100 == yoe - 100 * (yoe / 100) && yoe % 400 == yoe - 400 * (yoe / 400);
  }

  lemma EraShiftsLeaps(yoe: int, era: int)
    requires 0 <= yoe <= 399
    ensures Leaps(yoe + 400 * era) == yoe / 4 - yoe / 100 + 97 * era
  {
    EraQuotients(yoe, era);
  }

  /** The month formula, for every day of a March-based year. */
  lemma MonthCorrect(doy: int, y: int)
    requires 0 <= doy <= 365 && (doy == 365 ==> IsLeap(y + 1))
    ensures var t := FromMarch(y, doy);
            && 0 <= MonthFromMarch(doy) <= 11
            && Valid(t)
            && t.y == (if doy >= 306 then y + 1 else y)
            && DaysToMonth(t.y, t.m) + t.d - 1 == (if doy >= 306 then doy - 306 else doy + YearLength(y) - 306)
  {
    MonthTable(y);
    MonthTable(y + 1);
    var mp := MonthFromMarch(doy);
    assert 153 * mp <= 5 * doy + 2 < 153 * mp + 153;
  }

  /** Day `doy` of the March-based year `y` lies `doy` days after 1 March of `y`. */
  lemma FromMarchIsDay(y: int, doy: int)
    requires 0 <= doy <= 365 && (doy == 365 ==> IsLeap(y + 1))
    ensures Valid(FromMarch(y, doy)) && DaysFrom(FromMarch(y, doy)) == 365 * y + Leaps(y) + doy - 719468
  {
    MonthCorrect(doy, y);
    LeapStep(y);
    DaysToYearClosed(y);
    DaysToYearClosed(y + 1);
  }

  /** The closed form gives a real date, and summing lengths leads back to the day number. */
  lemma CivilIsDay(z: int)
    ensures Valid(CivilOf(z)) && DaysFrom(CivilOf(z)) == z
  {
    EraIsFloor(z);
    var era, doe := Era(z), DayOfEra(z);
    YearOfEraCorrect(doe);
    var yoe := YearOfEra(doe);
    EraShiftsLeaps(yoe, era);
    EraShiftsIsLeap(yoe + 1, era);
    FromMarchIsDay(yoe + era * 400, DayOfYear(doe, yoe));
  }

  /** For every day number of either sign, the closed form is the date reached by counting. */
  lemma CivilIsDateAt(z: int)
    ensures CivilOf(z) == DateAt(z)
  {
    CivilIsDay(z);
    DaysFromDateAt(z);
    DaysFromInjective(CivilOf(z), DateAt(z));
  }

  /** And every real date is the image of its own day number. */
  lemma CivilUndoesDaysFrom(t: Date)
    requires Valid(t)
    ensures CivilOf(DaysFrom(t)) == t
  {
    CivilIsDay(DaysFrom(t));
    DaysFromInjective(CivilOf(DaysFrom(t)), t);
  }

  lemma YearDayOfEra(doy: int, yoe: int, era: int)
    requires 0 <= yoe <= 399 && 0 <= doy <= 365 && (doy == 365 ==> IsLeap(yoe + 1))
    ensures var t := FromMarch(yoe + era * 400, doy);
            YearDay(doy, yoe) == DaysToMonth(t.y, t.m) + t.d - 1
  {
    EraShiftsIsLeap(yoe, era);
    EraShiftsIsLeap(yoe + 1, era);
    MonthCorrect(doy, yoe + era * 400);
    LeapOfEra(yoe);
  }

  lemma LeapOfEra(yoe: int)
    requires 0 <= yoe <= 399
    ensures IsLeap(yoe) <==> (yoe % 4 == 0 && yoe % 100 != 0) || yoe == 0
  {}

  // ---------------------------------------------------------------- struct tm

  class Tm {
    var sec: int
    var min: int
    var hour: int
    var mday: int
    var mon: int
    var year: int
    var wday: int
    var yday: int

    ghost function Civil(): Date
      reads this
    {
      Date(year + 1900, mon + 1, mday)
    }
  }

  method TimeCivilFromDays(z0: int, tp: Tm)
    modifies tp
    ensures tp.Civil() == DateAt(z0)
    ensures tp.wday == (z0 + 4) % 7
    ensures tp.yday == z0 - DaysFrom(Date(tp.year + 1900, 1, 1))
    ensures tp.sec == old(tp.sec) && tp.min == old(tp.min) && tp.hour == old(tp.hour)
  {
    tp.wday := if z0 >= -4 then CRem(z0 + 4, 7) else CRem(z0 + 5, 7) + 6;
    assert tp.wday == (z0 + 4) % 7;
    var era, doe := SplitEra(z0);
    var yoe, doy := SplitYear(doe);
    var y := yoe + era * 400;
    var mp := (5 * doy + 2) / 153;
    var d := doy - (153 * mp + 2) / 5 + 1;
    var m := mp + (if mp < 10 then 3 else -9);
    ghost var date := FromMarch(y, doy);
    assert m == date.m && d == date.d && date.y == y + (if m <= 2 then 1 else 0);
    MarchDay(z0, era, yoe, doy);
    tp.year := y + (if m <= 2 then 1 else 0) - 1900;
    tp.mon := m - 1;
    tp.mday := d;
    if doy >= 306 {
      tp.yday := doy - 306;
    } else {
      tp.yday := doy + 59 + (if (yoe % 4 == 0 && yoe % 100 != 0) || yoe == 0 then 1 else 0);
    }
    assert tp.yday == YearDay(doy, yoe);
  }

  /** Shifting the epoch to 1 March of year 0 and splitting off the era, also before the epoch. */
  method SplitEra(z0: int) returns (era: int, doe: int)
    ensures z0 + 719468 == 146097 * era + doe && 0 <= doe <= 146096
  {
    var z := z0 + 719468;
    era := CDiv(if z >= 0 then z else z - 146096, 146097);
    doe := z - era * 146097;
    EraIsFloor(z0);
  }

  /** The March-based year that a day of the era falls into, and the day of that year. */
  method SplitYear(doe: int) returns (yoe: int, doy: int)
    requires 0 <= doe <= 146096
    ensures 0 <= yoe <= 399 && 0 <= doy <= 365 && doe == YearStart(yoe) + doy && (doy == 365 ==> IsLeap(yoe + 1))
  {
    yoe := (doe - doe / 1460 + doe / 36524 - doe / 146096) / 365;
    doy := doe - (365 * yoe + yoe / 4 - yoe / 100);
    YearOfEraCorrect(doe);
  }

  /** Whatever splits a day number this way gives the date reached by counting. */
  lemma MarchDay(z: int, era: int, yoe: int, doy: int)
    requires 0 <= yoe <= 399 && 0 <= doy <= 365 && (doy == 365 ==> IsLeap(yoe + 1))
    requires z + 719468 == 146097 * era + YearStart(yoe) + doy
    ensures var t := FromMarch(yoe + era * 400, doy);
            t == DateAt(z) && YearDay(doy, yoe) == z - DaysFrom(Date(t.y, 1, 1))
  {
    EraShiftsLeaps(yoe, era);
    EraShiftsIsLeap(yoe + 1, era);
    FromMarchIsDay(yoe + era * 400, doy);
    DaysFromDateAt(z);
    DaysFromInjective(FromMarch(yoe + era * 400, doy), DateAt(z));
    YearDayOfEra(doy, yoe, era);
  }

  method GmtimeR(t: int, result: Tm)
    modifies result
    ensures var days := t / 86400;
            && result.Civil() == DateAt(days)
            && DaysFrom(DateAt(days)) * 86400 + result.hour * 3600 + result.min * 60 + result.sec == t
            && result.wday == (days + 4) % 7
            && result.yday == days - DaysFrom(Date(result.year + 1900, 1, 1))
    ensures 0 <= result.hour < 24 && 0 <= result.min < 60 && 0 <= result.sec < 60
    ensures 0 <= result.mon < 12 && 1 <= result.mday <= 31 && 0 <= result.yday < YearLength(result.year + 1900)
  {
    var z := t;
    var days := CDiv(if z >= 0 then z else z - 86399, 86400);
    var rem := z - days * 86400;
    result.sec, result.min, result.hour, result.mday := 0, 0, 0, 0;
    result.mon, result.year, result.wday, result.yday := 0, 0, 0, 0;
    TimeCivilFromDays(days, result);
    result.hour := rem / 60 / 60;
    rem := rem - result.hour * 60 * 60;
    result.min := rem / 60;
    result.sec := rem - result.min * 60;
    assert days == t / 86400;
    DaysFromDateAt(days);
    DayOfYearBound(DateAt(days));
  }

  // ---------------------------------------------------------------- widths of the C types

  predicate Int32(x: int) { -0x8000_0000 <= x < 0x8000_0000 }

  predicate UInt32(x: int) { 0 <= x < 0x1_0000_0000 }

  predicate Int64(x: int) { -0x8000_0000_0000_0000 <= x < 0x8000_0000_0000_0000 }

  /** The exact days whose year fits tm_year. */
  lemma YearFitsExactly(z: int)
    ensures Int32(CivilOf(z).y - 1900) <==> DaysToYear(1900 - 0x8000_0000) <= z < DaysToYear(1900 + 0x8000_0000)
  {
    CivilIsDay(z);
    var y := CivilOf(z).y;
    DayOfYearBound(CivilOf(z));
    YearStep(y);
    var lo, hi := 1900 - 0x8000_0000, 1900 + 0x8000_0000;
    if y < lo { YearsGrow(y, lo); }
    if lo < y { YearsGrow(lo, y); }
    if y < hi { YearsGrow(y, hi); }
    if hi < y { YearsGrow(hi, y); }
  }

  /** Within 2^55 seconds of the epoch, on either side, no intermediate value leaves the C type
      that holds it, with a 64-bit time_t and a 32-bit int. */
  lemma IntermediatesFit(t: int)
    requires -0x80_0000_0000_0000 <= t <= 0x80_0000_0000_0000
    ensures var days := t / 86400;
            var z := Shifted(days); var era := Era(days); var doe := DayOfEra(days); var yoe := YearOfEra(doe);
            var doy := DayOfYear(doe, yoe); var mp := MonthFromMarch(doy);
            && Int64(t - 86399) && Int64(days) && Int64(days * 86400) && UInt32(t - days * 86400)
            && Int64(days + 5) && Int64(z - 146096) && Int64(era) && Int64(era * 146097) && UInt32(doe)
            && UInt32(doe - doe / 1460) && UInt32(doe - doe / 1460 + doe / 36524)
            && UInt32(doe - doe / 1460 + doe / 36524 - doe / 146096) && UInt32(yoe)
            && Int64(era * 400) && Int64(yoe + era * 400)
            && UInt32(365 * yoe + yoe / 4) && UInt32(365 * yoe + yoe / 4 - yoe / 100) && UInt32(doy)
            && UInt32(5 * doy + 2) && UInt32(mp) && UInt32(153 * mp + 2)
            && UInt32(doy - (153 * mp + 2) / 5) && UInt32(MonthOf(mp))
            && Int32(CivilOf(days).y - 1900) && Int32(CivilOf(days).d)
  {
    var days := t / 86400;
    EraIsFloor(days);
    YearOfEraCorrect(DayOfEra(days));
    var yoe := YearOfEra(DayOfEra(days));
    CivilIsDay(days);
    MonthCorrect(DayOfYear(DayOfEra(days), yoe), yoe);
    DayOfYearBound(CivilOf(days));
  }
}
