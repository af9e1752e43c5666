/** The proleptic Gregorian calendar, one day at a time. */
module Gregorian {

  datatype Date = Date(y: int, m: int, d: int)

  const EPOCH := Date(1970, 1, 1)

  predicate IsLeap(y: int) {
    y % 4 == 0 && (y % 100 != 0 || y % 400 == 0)
  }

  function YearLength(y: int): int {
    if IsLeap(y) then 366 else 365
  }

  function MonthLength(y: int, m: int): int {
    if m == 2 then (if IsLeap(y) then 29 else 28)
    else if m == 4 || m == 6 || m == 9 || m == 11 then 30
    else 31
  }

  predicate Valid(t: Date) {
    1 <= t.m <= 12 && 1 <= t.d <= MonthLength(t.y, t.m)
  }

  function Next(t: Date): Date {
    if t.d < MonthLength(t.y, t.m) then t.(d := t.d + 1)
    else if t.m < 12 then Date(t.y, t.m + 1, 1)
    else Date(t.y + 1, 1, 1)
  }

  function Previous(t: Date): Date {
    if t.d > 1 then t.(d := t.d - 1)
    else if t.m > 1 then Date(t.y, t.m - 1, MonthLength(t.y, t.m - 1))
    else Date(t.y - 1, 12, 31)
  }

  /** The date `z` steps after the epoch, or `-z` steps before it. */
  function DateAt(z: int): Date
    decreases if z < 0 then -z else z
  {
    if z == 0 then EPOCH
    else if z > 0 then Next(DateAt(z - 1))
    else Previous(DateAt(z + 1))
  }

  /** The days from 1 January 1970 to 1 January of year `y`: a sum of year lengths. */
  function DaysToYear(y: int): int
    decreases if y < 1970 then 1970 - y else y - 1970
  {
    if y == 1970 then 0
    else if y > 1970 then DaysToYear(y - 1) + YearLength(y - 1)
    else DaysToYear(y + 1) - YearLength(y)
  }

  /** The days of year `y` before month `m`: a sum of month lengths. */
  function DaysToMonth(y: int, m: int): int
    decreases m
  {
    if m <= 1 then 0 else DaysToMonth(y, m - 1) + MonthLength(y, m - 1)
  }

  function DaysFrom(t: Date): int {
    DaysToYear(t.y) + DaysToMonth(t.y, t.m) + t.d - 1
  }

  lemma YearStep(y: int)
    ensures DaysToYear(y + 1) == DaysToYear(y) + YearLength(y)
  {
    if y < 1970 {
      assert DaysToYear(y) == DaysToYear(y + 1) - YearLength(y);
    }
  }

  lemma MonthTable(y: int)
    ensures DaysToMonth(y, 1) == 0 && DaysToMonth(y, 2) == 31
    ensures DaysToMonth(y, 3) == YearLength(y) - 306 && DaysToMonth(y, 4) == YearLength(y) - 275
    ensures DaysToMonth(y, 5) == YearLength(y) - 245 && DaysToMonth(y, 6) == YearLength(y) - 214
    ensures DaysToMonth(y, 7) == YearLength(y) - 184 && DaysToMonth(y, 8) == YearLength(y) - 153
    ensures DaysToMonth(y, 9) == YearLength(y) - 122 && DaysToMonth(y, 10) == YearLength(y) - 92
    ensures DaysToMonth(y, 11) == YearLength(y) - 61 && DaysToMonth(y, 12) == YearLength(y) - 31
  {
    assert DaysToMonth(y, 3) == DaysToMonth(y, 2) + MonthLength(y, 2);
    assert DaysToMonth(y, 5) == DaysToMonth(y, 4) + MonthLength(y, 4);
    assert DaysToMonth(y, 7) == DaysToMonth(y, 6) + MonthLength(y, 6);
    assert DaysToMonth(y, 9) == DaysToMonth(y, 8) + MonthLength(y, 8);
    assert DaysToMonth(y, 11) == DaysToMonth(y, 10) + MonthLength(y, 10);
  }

  lemma NextIsOneDay(t: Date)
    requires Valid(t)
    ensures Valid(Next(t)) && DaysFrom(Next(t)) == DaysFrom(t) + 1
  {
    if t.d == MonthLength(t.y, t.m) && t.m == 12 {
      MonthTable(t.y);
      YearStep(t.y);
    }
  }

  lemma PreviousUndoesNext(t: Date)
    requires Valid(t)
    ensures Valid(Previous(t)) && Next(Previous(t)) == t
  {}

  lemma {:induction false} YearsGrow(y1: int, y2: int)
    requires y1 < y2
    ensures DaysToYear(y1) + YearLength(y1) <= DaysToYear(y2)
    decreases y2 - y1
  {
    YearStep(y1);
    if y1 + 1 < y2 { YearsGrow(y1 + 1, y2); }
  }

  lemma {:induction false} MonthsGrow(y: int, m1: int, m2: int)
    requires 1 <= m1 < m2
    ensures DaysToMonth(y, m1) + MonthLength(y, m1) <= DaysToMonth(y, m2)
    decreases m2 - m1
  {
    if m1 + 1 < m2 {
      MonthsGrow(y, m1 + 1, m2);
      assert DaysToMonth(y, m1 + 1) == DaysToMonth(y, m1) + MonthLength(y, m1);
    }
  }

  lemma DayOfYearBound(t: Date)
    requires Valid(t)
    ensures 0 <= DaysToMonth(t.y, t.m) + t.d - 1 < YearLength(t.y)
  {
    MonthTable(t.y);
    if t.m > 1 { MonthsGrow(t.y, 1, t.m); }
    if t.m < 12 { MonthsGrow(t.y, t.m, 12); }
  }

  predicate Earlier(a: Date, b: Date) {
    a.y < b.y || (a.y == b.y && (a.m < b.m || (a.m == b.m && a.d < b.d)))
  }

  lemma LaterHasMoreDays(a: Date, b: Date)
    requires Valid(a) && Valid(b) && Earlier(a, b)
    ensures DaysFrom(a) < DaysFrom(b)
  {
    if a.y < b.y {
      YearsGrow(a.y, b.y);
      DayOfYearBound(a);
      DayOfYearBound(b);
    } else if a.m < b.m {
      MonthsGrow(a.y, a.m, b.m);
    }
  }

  /** A day number belongs to at most one date. */
  lemma DaysFromInjective(a: Date, b: Date)
    requires Valid(a) && Valid(b) && DaysFrom(a) == DaysFrom(b)
    ensures a == b
  {
    if Earlier(a, b) { LaterHasMoreDays(a, b); }
    if Earlier(b, a) { LaterHasMoreDays(b, a); }
  }

  /** Counting steps and summing lengths agree. */
  lemma {:induction false} DaysFromDateAt(z: int)
    ensures Valid(DateAt(z)) && DaysFrom(DateAt(z)) == z
    decreases if z < 0 then -z else z
  {
    if z > 0 {
      DaysFromDateAt(z - 1);
      NextIsOneDay(DateAt(z - 1));
    } else if z < 0 {
      DaysFromDateAt(z + 1);
      PreviousUndoesNext(DateAt(z + 1));
      NextIsOneDay(DateAt(z));
    }
  }
}
