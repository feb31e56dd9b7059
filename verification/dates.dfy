/** The part of .NET's DateTime that the journal relies on: a day number with a
    time of day, truncation to the day, comparison by ticks, the proleptic
    Gregorian calendar (year, month, day, days in a month, day of the week),
    AddMonths, and the invariant culture's "D" and "MMMM yyyy" formats. */
module Dates {

  /** Ticks (units of 100 ns) in one day. */
  const TicksPerDay: int := 864_000_000_000

  type TimeOfDay = t: int | 0 <= t < TicksPerDay

  /** A point in time: the day number (day 0 is Monday, 1 January of year 1,
      the day of DateTime.MinValue) and the ticks elapsed since its midnight. */
  datatype DateTime = DateTime(day: int, time: TimeOfDay)

  /** DateTime.Date: the same day at midnight. */
  function Date(t: DateTime): DateTime {
    DateTime(t.day, 0)
  }

  /** The midnight that starts a day. */
  function Midnight(day: int): DateTime {
    DateTime(day, 0)
  }

  /** DateTime.Ticks, counted from day 0: DateTime values compare by it. */
  function Ticks(t: DateTime): int {
    t.day * 864_000_000_000 + t.time
  }

  /** Ticks order the points in time by day first and time of day second. */
  lemma TicksOrder(a: DateTime, b: DateTime)
    ensures Ticks(a) <= Ticks(b) <==> a.day < b.day || (a.day == b.day && a.time <= b.time)
  {
    if a.day < b.day {
      assert Ticks(a) < (a.day + 1) * 864_000_000_000;
    } else if b.day < a.day {
      assert Ticks(b) < (b.day + 1) * 864_000_000_000;
    }
  }

  /** Two points in time are equal exactly when their ticks are. */
  lemma TicksInjective(a: DateTime, b: DateTime)
    ensures Ticks(a) == Ticks(b) <==> a == b
  {
    TicksOrder(a, b);
    TicksOrder(b, a);
  }

  // ---------------------------------------------------------------------
  // The proleptic Gregorian calendar

  predicate IsLeapYear(y: int) {
    y % 4 == 0 && (y % 100 != 0 || y % 400 == 0)
  }

  function DaysInYear(y: int): int {
    if IsLeapYear(y) then 366 else 365
  }

  /** DateTime.DaysInMonth. */
  function DaysInMonth(y: int, m: int): int
    requires 1 <= m <= 12
  {
    if m == 2 then (if IsLeapYear(y) then 29 else 28)
    else if m == 4 || m == 6 || m == 9 || m == 11 then 30
    else 31
  }

  /** Days of year y before the first of month m; month 13 stands for the next year. */
  function DaysBeforeMonth(y: int, m: int): int
    requires 1 <= m <= 13
  {
    var common :=
      if m == 1 then 0 else if m == 2 then 31 else if m == 3 then 59
      else if m == 4 then 90 else if m == 5 then 120 else if m == 6 then 151
      else if m == 7 then 181 else if m == 8 then 212 else if m == 9 then 243
      else if m == 10 then 273 else if m == 11 then 304 else if m == 12 then 334
      else 365;
    common + (if m > 2 && IsLeapYear(y) then 1 else 0)
  }

  /** The day number of 1 January of year y. */
  function DaysBeforeYear(y: int): int {
    var x := y - 1;
    365 * x + x / 4 - x / 100 + x / 400
  }

  lemma DaysBeforeMonthStep(y: int, m: int)
    requires 1 <= m <= 12
    ensures DaysBeforeMonth(y, m + 1) == DaysBeforeMonth(y, m) + DaysInMonth(y, m)
    ensures DaysBeforeMonth(y, 13) == DaysInYear(y)
  {
  }

  lemma DaysBeforeYearStep(y: int)
    ensures DaysBeforeYear(y + 1) == DaysBeforeYear(y) + DaysInYear(y)
  {
    DivStep4(y - 1);
    DivStep100(y - 1);
    DivStep400(y - 1);
  }

  lemma DivStep4(x: int)
    ensures (x + 1) / 4 == x / 4 + (if (x + 1) % 4 == 0 then 1 else 0)
  {
  }

  lemma DivStep100(x: int)
    ensures (x + 1) / 100 == x / 100 + (if (x + 1) % 100 == 0 then 1 else 0)
  {
  }

  lemma DivStep400(x: int)
    ensures (x + 1) / 400 == x / 400 + (if (x + 1) % 400 == 0 then 1 else 0)
  {
  }

  lemma {:induction false} DaysBeforeYearMonotone(a: int, b: int)
    requires a <= b
    ensures DaysBeforeYear(a) <= DaysBeforeYear(b)
    decreases b - a
  {
    if a < b {
      DaysBeforeYearStep(b - 1);
      DaysBeforeYearMonotone(a, b - 1);
    }
  }

  /** A year at or before the one that holds day n. */
  function YearLowerBound(n: int): (y: int)
    ensures DaysBeforeYear(y) <= n
  {
    if n >= 0 then
      var x := n / 366;
      assert x / 400 <= x / 100;
      1 + x
    else
      n / 365
  }

  /** Walks up from year y to the year that holds day n. */
  function YearSearch(n: int, y: int): (r: int)
    requires DaysBeforeYear(y) <= n
    ensures DaysBeforeYear(r) <= n < DaysBeforeYear(r + 1)
    decreases n - DaysBeforeYear(y)
  {
    DaysBeforeYearStep(y);
    if n < DaysBeforeYear(y + 1) then y else YearSearch(n, y + 1)
  }

  /** DateTime.Year of day n. */
  function YearOf(n: int): (y: int)
    ensures DaysBeforeYear(y) <= n < DaysBeforeYear(y + 1)
  {
    YearSearch(n, YearLowerBound(n))
  }

  /** Only one year holds a given day. */
  lemma YearUnique(n: int, a: int, b: int)
    requires DaysBeforeYear(a) <= n < DaysBeforeYear(a + 1)
    requires DaysBeforeYear(b) <= n < DaysBeforeYear(b + 1)
    ensures a == b
  {
    if a < b {
      DaysBeforeYearMonotone(a + 1, b);
    } else if b < a {
      DaysBeforeYearMonotone(b + 1, a);
    }
  }

  /** Walks down from month m to the month that holds day r of year y. */
  function MonthSearch(y: int, r: int, m: int): (k: int)
    requires 1 <= m <= 12 && 0 <= r < DaysBeforeMonth(y, m + 1)
    ensures 1 <= k <= m && DaysBeforeMonth(y, k) <= r < DaysBeforeMonth(y, k + 1)
    decreases m
  {
    if DaysBeforeMonth(y, m) <= r then m else MonthSearch(y, r, m - 1)
  }

  datatype Civil = Civil(year: int, month: int, day: int)

  predicate ValidCivil(c: Civil) {
    1 <= c.month <= 12 && 1 <= c.day <= DaysInMonth(c.year, c.month)
  }

  /** new DateTime(year, month, day): the day number of a calendar date. */
  function DayNumber(c: Civil): int
    requires ValidCivil(c)
  {
    DaysBeforeYear(c.year) + DaysBeforeMonth(c.year, c.month) + c.day - 1
  }

  /** The calendar date (Year, Month, Day) of a day number. */
  function CivilOf(n: int): (c: Civil)
    ensures ValidCivil(c) && DayNumber(c) == n
  {
    var y := YearOf(n);
    var r := n - DaysBeforeYear(y);
    DaysBeforeYearStep(y);
    DaysBeforeMonthStep(y, 12);
    var m := MonthSearch(y, r, 12);
    DaysBeforeMonthStep(y, m);
    Civil(y, m, r - DaysBeforeMonth(y, m) + 1)
  }

  /** The calendar and the day numbers are in one-to-one correspondence:
      converting a valid date to its day number and back gives the date again. */
  lemma CivilRoundTrip(c: Civil)
    requires ValidCivil(c)
    ensures CivilOf(DayNumber(c)) == c
  {
    DayNumberInjective(c, CivilOf(DayNumber(c)));
  }

  /** Two valid dates with the same day number are the same date. */
  lemma DayNumberInjective(c: Civil, d: Civil)
    requires ValidCivil(c) && ValidCivil(d) && DayNumber(c) == DayNumber(d)
    ensures c == d
  {
    var n := DayNumber(c);
    DayInYear(c);
    DayInYear(d);
    DaysBeforeYearStep(c.year);
    DaysBeforeYearStep(d.year);
    YearUnique(n, c.year, d.year);
    DayInMonth(c);
    DayInMonth(d);
    MonthUnique(c.year, n - DaysBeforeYear(c.year), c.month, d.month);
  }

  /** A valid date lies within its month. */
  lemma DayInMonth(c: Civil)
    requires ValidCivil(c)
    ensures DaysBeforeMonth(c.year, c.month) <= DaysBeforeMonth(c.year, c.month) + c.day - 1 < DaysBeforeMonth(c.year, c.month + 1)
  {
    DaysBeforeMonthStep(c.year, c.month);
  }

  /** A valid date lies within its year. */
  lemma DayInYear(c: Civil)
    requires ValidCivil(c)
    ensures 0 <= DaysBeforeMonth(c.year, c.month) + c.day - 1 < DaysInYear(c.year)
  {
    DaysBeforeMonthStep(c.year, c.month);
    DaysBeforeMonthStep(c.year, 12);
  }

  lemma MonthUnique(y: int, r: int, a: int, b: int)
    requires 1 <= a <= 12 && 1 <= b <= 12
    requires DaysBeforeMonth(y, a) <= r < DaysBeforeMonth(y, a + 1)
    requires DaysBeforeMonth(y, b) <= r < DaysBeforeMonth(y, b + 1)
    ensures a == b
  {
  }

  /** DateTime.DayOfWeek with Sunday = 0: day 0 is a Monday. */
  function DayOfWeek(n: int): (w: int)
    ensures 0 <= w < 7
  {
    (n + 1) % 7
  }

  /** A calendar month: DateTime.Year and DateTime.Month without the day. */
  datatype YearMonth = YearMonth(year: int, month: int)

  function YearMonthOf(n: int): YearMonth {
    var c := CivilOf(n);
    YearMonth(c.year, c.month)
  }

  /** The calendar month that lies k months after ym. */
  function ShiftMonth(ym: YearMonth, k: int): YearMonth {
    var i := ym.month - 1 + k;
    YearMonth(ym.year + i / 12, i % 12 + 1)
  }

  /** The calendar date AddMonths lands on: the same day of the month k
      months away, clamped to the length of that month. */
  function MonthTarget(t: DateTime, k: int): (c: Civil)
    ensures ValidCivil(c)
    ensures YearMonth(c.year, c.month) == ShiftMonth(YearMonthOf(t.day), k)
    ensures c.day <= CivilOf(t.day).day
    ensures c.day < CivilOf(t.day).day ==> c.day == DaysInMonth(c.year, c.month)
  {
    var c := CivilOf(t.day);
    var i := c.month - 1 + k;
    var y := c.year + i / 12;
    var m := i % 12 + 1;
    var d := if c.day <= DaysInMonth(y, m) then c.day else DaysInMonth(y, m);
    Civil(y, m, d)
  }

  /** DateTime.AddMonths: moves the calendar month by k, keeps the time of day
      and clamps the day of the month to the length of the target month. */
  function AddMonths(t: DateTime, k: int): (r: DateTime)
    ensures r.time == t.time
    ensures var c, o := CivilOf(r.day), CivilOf(t.day);
      && c.day <= o.day
      && (c.day < o.day ==> c.day == DaysInMonth(c.year, c.month))
  {
    CivilRoundTrip(MonthTarget(t, k));
    DateTime(DayNumber(MonthTarget(t, k)), t.time)
  }

  /** AddMonths lands in the calendar month k months away. */
  lemma AddMonthsShifts(t: DateTime, k: int)
    ensures YearMonthOf(AddMonths(t, k).day) == ShiftMonth(YearMonthOf(t.day), k)
  {
    CivilRoundTrip(MonthTarget(t, k));
  }

  /** NextMonth followed by PrevMonth comes back to the same year and month. */
  lemma AddMonthsUndo(t: DateTime)
    ensures YearMonthOf(AddMonths(AddMonths(t, 1), -1).day) == YearMonthOf(t.day)
  {
    var ym := YearMonthOf(t.day);
    var u := AddMonths(t, 1);
    AddMonthsShifts(t, 1);
    AddMonthsShifts(u, -1);
    ShiftMonthUndo(ym);
  }

  lemma ShiftMonthUndo(ym: YearMonth)
    requires 1 <= ym.month <= 12
    ensures ShiftMonth(ShiftMonth(ym, 1), -1) == ym
  {
    if ym.month < 12 {
      assert ShiftMonth(ym, 1) == YearMonth(ym.year, ym.month + 1);
    } else {
      assert ShiftMonth(ym, 1) == YearMonth(ym.year + 1, 1);
    }
  }

  // ---------------------------------------------------------------------
  // Formatting with the invariant culture

  function DigitChar(d: int): char
    requires 0 <= d < 10
  {
    "0123456789"[d]
  }

  /** Int32.ToString() of a non-negative number. */
  function NatToString(n: nat): (s: string)
    ensures 1 <= |s|
    ensures forall i :: 0 <= i < |s| ==> '0' <= s[i] <= '9'
  {
    if n < 10 then [DigitChar(n)] else NatToString(n / 10) + [DigitChar(n % 10)]
  }

  /** The number a string of decimal digits spells, most significant first. */
  function DigitsValue(s: string): nat
    requires forall i :: 0 <= i < |s| ==> '0' <= s[i] <= '9'
  {
    if s == [] then 0
    else DigitsValue(s[..|s| - 1]) * 10 + (s[|s| - 1] as int - '0' as int)
  }

  lemma DigitCharValue(d: int)
    requires 0 <= d < 10
    ensures DigitChar(d) as int - '0' as int == d
  {
    if d < 5 {
      if d < 2 { } else if d == 2 { } else if d == 3 { } else { }
    } else {
      if d < 7 { } else if d == 7 { } else if d == 8 { } else { }
    }
  }

  /** The digits NatToString writes spell the number, and the first digit is
      0 only for 0 itself. */
  lemma {:induction false} NatToStringValue(n: nat)
    ensures DigitsValue(NatToString(n)) == n
    ensures NatToString(n)[0] == '0' <==> n == 0
  {
    var s := NatToString(n);
    if n < 10 {
      DigitCharValue(n);
      assert s[..0] == [];
    } else {
      NatToStringValue(n / 10);
      DigitCharValue(n % 10);
      assert s[..|s| - 1] == NatToString(n / 10);
    }
  }

  /** Int32.ToString(). */
  function IntToString(n: int): string {
    if n < 0 then "-" + NatToString(-n) else NatToString(n)
  }

  /** Left-pads with zeros to the width of a custom format ("dd", "yyyy"). */
  function ZeroPad(s: string, width: nat): (r: string)
    ensures |r| == if |s| >= width then |s| else width
    ensures r[|r| - |s|..] == s
    ensures forall i :: 0 <= i < |r| - |s| ==> r[i] == '0'
    decreases width - |s|
  {
    if |s| >= width then s else ZeroPad("0" + s, width)
  }

  const DayNames: seq<string> :=
    ["Sunday", "Monday", "Tuesday", "Wednesday", "Thursday", "Friday", "Saturday"]

  const MonthNames: seq<string> :=
    ["January", "February", "March", "April", "May", "June", "July",
     "August", "September", "October", "November", "December"]

  /** Format "yyyy": the year with at least four digits. */
  function YearText(y: int): string {
    if y < 0 then "-" + ZeroPad(NatToString(-y), 4) else ZeroPad(NatToString(y), 4)
  }

  /** Format "D" of the invariant culture: "dddd, dd MMMM yyyy". */
  function LongDate(n: int): string {
    var c := CivilOf(n);
    DayNames[DayOfWeek(n)] + ", " + ZeroPad(NatToString(c.day), 2) + " "
      + MonthNames[c.month - 1] + " " + YearText(c.year)
  }

  /** Format "MMMM yyyy" of the invariant culture. */
  function MonthAndYear(n: int): string {
    var c := CivilOf(n);
    MonthNames[c.month - 1] + " " + YearText(c.year)
  }
}
