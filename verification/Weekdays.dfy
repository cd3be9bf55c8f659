/** Days of the week and the dates named by a weekday of a month: `weekday`,
    `year_month_weekday` and `year_month_weekday_last` of `Include/date/date.h`. */
module Weekdays {
  import opened CalendarDate
  import opened CppArith
  import Gregorian

  /** `weekday::weekday_from_days`: the unsigned conversion wraps for negative days. */
  function WeekdayFromDays(z: int): int {
    var u := U32(z);
    if z >= -4 then U32(u + 4) % 7 else u % 7
  }

  /** The same function in the Julian, Islamic and Solar Hijri headers. */
  function WeekdayFromDaysTruncating(z: int): int {
    if z >= -4 then TruncMod(z + 4, 7) else TruncMod(z + 5, 7) + 6
  }

  /** The day of the week of any day, Sunday being 0: day 0 is a Thursday. */
  function DayOfWeek(dp: int): (r: int)
    ensures 0 <= r < 7
  {
    (dp + 4) % 7
  }

  /** For every `int` the wrap-around agrees with the Euclidean remainder, and so does the
      truncated remainder wherever `z + 4` does not overflow. */
  lemma WeekdayIsEuclidean(z: int)
    requires FitsI32(z)
    ensures WeekdayFromDays(z) == DayOfWeek(z)
    ensures FitsI32(z + 4) ==> WeekdayFromDaysTruncating(z) == DayOfWeek(z)
  {
    hide TruncMod, U32;
    if z >= -4 {
      WrapAbsorbed(z, 4);
      NoWrap();
      TruncNonnegative();
    } else {
      UnsignedOfNegative(z);
      TruncModOfNegative(z + 5);
      ModUnique(z + 4, 7, -((-(z + 5)) / 7) - 1, 6 - (-(z + 5)) % 7);
    }
  }

  lemma UnsignedOfNegative(z: int)
    requires -0x8000_0000 <= z < 0
    ensures U32(z) % 7 == (z + 4) % 7
  {
    ModUnique(z + 0x1_0000_0000, 7, 613566756 + (z + 4) / 7, (z + 4) % 7);
  }

  lemma TruncModOfNegative(a: int)
    requires a <= 0
    ensures TruncMod(a, 7) == -((-a) % 7)
  {}

  /** `operator-` of two weekdays: the number of days forward from `y` to `x`. */
  function Difference(x: int, y: int): int {
    var wdu := x - y;
    var wk := TruncDiv(if wdu >= 0 then wdu else wdu - 6, 7);
    wdu - wk * 7
  }

  lemma DifferenceIsForward(x: int, y: int)
    ensures Difference(x, y) == (x - y) % 7
  {
    EraIsFloor(x - y, 7);
  }

  /** `year_month_weekday`: the `index`-th such weekday of the month. */
  datatype IndexedWeekday = IndexedWeekday(year: int, month: int, weekday: int, index: int)

  function ToDays(x: IndexedWeekday): int {
    var d := Gregorian.ToDays(Date(x.year, x.month, 1));
    d + (Difference(x.weekday, DayOfWeek(d)) + I32(U32(U32(x.index - 1) * 7)))
  }

  function FromDays(dp: int): IndexedWeekday {
    var ymd := Gregorian.FromDays(dp);
    IndexedWeekday(ymd.year, ymd.month, DayOfWeek(dp), (ymd.day - 1) / 7 + 1)
  }

  predicate Ok(x: IndexedWeekday) {
    if !(1 <= x.month <= 12) || !(x.weekday <= 6) || x.index < 1 then false
    else if x.index <= 4 then true
    else
      var d2 := Difference(x.weekday, DayOfWeek(Gregorian.ToDays(Date(x.year, x.month, 1))))
                + I32(U32(U32(U32(x.index - 1) * 7) + 1));
      U32(d2) <= Gregorian.LastDay(x.year, x.month)
  }

  /** The bit fields of `weekday_indexed` hold four bits each. */
  predicate Representable(x: IndexedWeekday) {
    0 <= x.month < 256 && 0 <= x.weekday < 16 && 0 <= x.index < 16
  }

  lemma DayInMonth(y: int, m: int, d: int)
    requires 1 <= m <= 12
    ensures Gregorian.ToDays(Date(y, m, d)) == Gregorian.ToDays(Date(y, m, 1)) + d - 1
  {
    hide Gregorian.ToDays, Gregorian.IsLeap, Gregorian.MarchYearStart;
    Gregorian.ToDaysIsCivilDays(Date(y, m, d));
    Gregorian.ToDaysIsCivilDays(Date(y, m, 1));
  }

  lemma LastDayRange(y: int, m: int)
    ensures 28 <= Gregorian.LastDay(y, m) <= 31
  {}

  /** The day of the month that the weekday and the index name. */
  function DayNamed(x: IndexedWeekday): int {
    (x.weekday - DayOfWeek(Gregorian.ToDays(Date(x.year, x.month, 1)))) % 7 + 7 * (x.index - 1) + 1
  }

  lemma IndexOffset(index: int)
    requires 0 <= index < 16
    ensures I32(U32(U32(index - 1) * 7)) == 7 * (index - 1)
    ensures index >= 1 ==> I32(U32(U32(U32(index - 1) * 7) + 1)) == 7 * (index - 1) + 1
  {
    if index == 0 {
      assert U32(-1) * 7 == 7 * 0x1_0000_0000 - 7;
    } else {
      hide U32, I32;
      NoWrap();
    }
  }

  lemma ToDaysNamesDay(x: IndexedWeekday)
    requires Representable(x) && 1 <= x.month <= 12
    ensures ToDays(x) == Gregorian.ToDays(Date(x.year, x.month, DayNamed(x)))
  {
    hide Gregorian.ToDays, Difference, I32, U32;
    var d := Gregorian.ToDays(Date(x.year, x.month, 1));
    DifferenceIsForward(x.weekday, DayOfWeek(d));
    DayInMonth(x.year, x.month, DayNamed(x));
    IndexOffset(x.index);
  }

  lemma DayNamedHasWeekday(x: IndexedWeekday)
    requires 0 <= x.weekday <= 6 && 1 <= x.month <= 12
    ensures DayOfWeek(Gregorian.ToDays(Date(x.year, x.month, DayNamed(x)))) == x.weekday
  {
    hide Gregorian.ToDays;
    var d := Gregorian.ToDays(Date(x.year, x.month, 1));
    DayInMonth(x.year, x.month, DayNamed(x));
    var w, k := DayOfWeek(d), (x.weekday - DayOfWeek(d)) % 7;
    ModUnique(d + k + 7 * (x.index - 1) + 4, 7,
              (d + 4) / 7 + x.index - 1 + (if w + k < 7 then 0 else 1), if w + k < 7 then w + k else w + k - 7);
  }

  lemma OkMeansDayExists(x: IndexedWeekday)
    requires Representable(x) && 1 <= x.month <= 12
    ensures Ok(x) <==> x.weekday <= 6 && 1 <= x.index && DayNamed(x) <= Gregorian.LastDay(x.year, x.month)
  {
    hide Gregorian.ToDays, Gregorian.LastDay, Difference, I32, U32;
    DifferenceIsForward(x.weekday, DayOfWeek(Gregorian.ToDays(Date(x.year, x.month, 1))));
    LastDayRange(x.year, x.month);
    IndexOffset(x.index);
    NoWrap();
  }

  /** A `year_month_weekday` is `ok` exactly when it is the name of the day it converts to. */
  lemma OkIffRoundTrip(x: IndexedWeekday)
    requires Representable(x)
    ensures Ok(x) <==> FromDays(ToDays(x)) == x
  {
    hide Gregorian.ToDays, Gregorian.FromDays, Gregorian.LastDay, ToDays, DayNamed;
    var dp := ToDays(x);
    var ymd := Gregorian.FromDays(dp);
    Gregorian.ToDaysOfFromDays(dp);
    if 1 <= x.month <= 12 && 1 <= x.index {
      ToDaysNamesDay(x);
      DayNamedIndex(x);
      OkMeansDayExists(x);
      if x.weekday <= 6 {
        DayNamedHasWeekday(x);
      }
      if Ok(x) {
        Gregorian.FromDaysOfToDays(Date(x.year, x.month, DayNamed(x)));
      }
      DayInMonth(x.year, x.month, ymd.day);
      DayInMonth(x.year, x.month, DayNamed(x));
    }
  }

  lemma DayNamedIndex(x: IndexedWeekday)
    requires x.index >= 1
    ensures DayNamed(x) >= 1 && (DayNamed(x) - 1) / 7 + 1 == x.index
  {
    hide Gregorian.ToDays;
  }

  /** `year_month_weekday_last`. */
  function LastToDays(y: int, m: int, wd: int): int {
    var d := Gregorian.ToDays(Date(y, m, Gregorian.LastDay(y, m)));
    d - Difference(DayOfWeek(d), wd)
  }

  /** It is such a weekday, in the month, and a week later is not. */
  lemma LastIsLast(y: int, m: int, wd: int) returns (day: int)
    requires 1 <= m <= 12 && 0 <= wd <= 6
    ensures LastToDays(y, m, wd) == Gregorian.ToDays(Date(y, m, day))
    ensures Gregorian.Valid(Date(y, m, day)) && !Gregorian.Valid(Date(y, m, day + 7))
    ensures DayOfWeek(LastToDays(y, m, wd)) == wd
  {
    hide Gregorian.ToDays, Gregorian.LastDay, Difference;
    var last := Gregorian.LastDay(y, m);
    var d := Gregorian.ToDays(Date(y, m, last));
    DifferenceIsForward(DayOfWeek(d), wd);
    day := last - (DayOfWeek(d) - wd) % 7;
    LastDayRange(y, m);
    DayInMonth(y, m, last);
    DayInMonth(y, m, day);
  }
}
