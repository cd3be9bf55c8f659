/** ISO week dates, `Include/date/iso_week.h`. */
module IsoWeek {
  import opened CalendarDate
  import opened CppArith
  import opened Weekdays
  import Gregorian

  /** Weekdays are numbered 1 (Monday) to 7 (Sunday). */
  datatype WeekDate = WeekDate(year: int, week: int, weekday: int)

  const MONDAY := 1
  const THURSDAY := 4

  /** The Monday that begins the ISO year: four days after the last Thursday of December. */
  function Start(y: int): int {
    LastToDays(y - 1, 12, THURSDAY) + Difference(MONDAY, THURSDAY)
  }

  predicate IsLeap(y: int) {
    LastToDays(y, 12, THURSDAY) - LastToDays(y - 1, 12, THURSDAY) != 7 * 52
  }

  function LastWeek(y: int): int {
    if IsLeap(y) then 53 else 52
  }

  predicate Ok(x: WeekDate) {
    1 <= x.weekday <= 7 && 1 <= x.week <= LastWeek(x.year)
  }

  function IsoEncoding(dp: int): int {
    if DayOfWeek(dp) == 0 then 7 else DayOfWeek(dp)
  }

  function ToDays(x: WeekDate): int {
    Start(x.year) + 7 * (x.week - 1) + (x.weekday - MONDAY)
  }

  function FromDays(dp: int): WeekDate {
    var y0 := Gregorian.FromDays(dp + 3).year;
    var y := if dp < Start(y0) then y0 - 1 else y0;
    WeekDate(y, TruncDiv(dp - Start(y), 7) + 1, IsoEncoding(dp))
  }

  lemma YearEnds(y: int)
    ensures Gregorian.ToDays(Date(y - 1, 12, 31)) == Gregorian.YearStart(y) - 1
    ensures Gregorian.ToDays(Date(y, 1, 4)) == Gregorian.YearStart(y) + 3
  {
    hide Gregorian.ToDays;
    Gregorian.ToDaysIsCivilDays(Date(y - 1, 12, 31));
    Gregorian.ToDaysIsCivilDays(Date(y, 1, 1));
    Gregorian.ToDaysIsCivilDays(Date(y, 1, 4));
  }

  lemma WeekSplit(n: int)
    ensures ((n + 4) % 7 - 4) % 7 == n % 7
    ensures (n - n % 7 + 8) % 7 == 1
  {
    ModUnique(n - n % 7 + 8, 7, n / 7 + 1, 1);
  }

  lemma StartFormula(y: int)
    ensures Start(y) == Gregorian.YearStart(y) + 3 - (Gregorian.YearStart(y) - 1) % 7
  {
    hide Gregorian.ToDays, Gregorian.YearStart, Difference;
    var d := Gregorian.YearStart(y) - 1;
    YearEnds(y);
    WeekSplit(d);
    DifferenceIsForward(DayOfWeek(d), THURSDAY);
    DifferenceIsForward(MONDAY, THURSDAY);
  }

  /** `Start` meets the definition of the standard: the Monday of the week that holds 4 January. */
  lemma StartIsMondayOfFirstWeek(y: int)
    ensures DayOfWeek(Start(y)) == MONDAY
    ensures Start(y) <= Gregorian.ToDays(Date(y, 1, 4)) < Start(y) + 7
  {
    hide Gregorian.ToDays, Gregorian.YearStart, Start;
    YearEnds(y);
    StartFormula(y);
    WeekSplit(Gregorian.YearStart(y) - 1);
  }

  lemma LongYearArithmetic(ys: int, length: int)
    requires 365 <= length <= 366
    ensures var weeks := (ys + length + 3 - (ys + length - 1) % 7) - (ys + 3 - (ys - 1) % 7);
            && weeks in {364, 371}
            && (weeks == 371 <==> (ys + 4) % 7 == 4 || (length == 366 && (ys + 4) % 7 == 3))
  {
    var q, r := ys / 7, ys % 7;
    if
    case r == 0 => case r == 1 => case r == 2 => case r == 3 => case r == 4 => case r == 5 => case r == 6 =>
  }

  lemma StartDifference(y: int)
    ensures Start(y + 1) - Start(y) == LastToDays(y, 12, THURSDAY) - LastToDays(y - 1, 12, THURSDAY)
  {
    hide LastToDays;
  }

  /** An ISO year has 53 weeks exactly when it starts on a Thursday, or is a Gregorian leap
      year that starts on a Wednesday. */
  lemma LongYears(y: int)
    ensures Start(y + 1) - Start(y) == 7 * LastWeek(y)
    ensures IsLeap(y) <==> DayOfWeek(Gregorian.YearStart(y)) == 4
                           || (Gregorian.IsLeap(y) && DayOfWeek(Gregorian.YearStart(y)) == 3)
  {
    hide Gregorian.YearStart, Gregorian.IsLeap, LastToDays, Start;
    StartDifference(y);
    Gregorian.YearLength(y);
    StartFormula(y);
    StartFormula(y + 1);
    LongYearArithmetic(Gregorian.YearStart(y), if Gregorian.IsLeap(y) then 366 else 365);
  }

  /** The year found from `dp + 3` with at most one step back is the ISO year of the day. */
  lemma YearFound(dp: int)
    ensures var y := FromDays(dp).year; Start(y) <= dp < Start(y + 1)
  {
    hide Gregorian.YearStart, Gregorian.FromDays, Start, IsLeap;
    var y0 := Gregorian.FromDays(dp + 3).year;
    Gregorian.YearOfDay(dp + 3);
    StartFormula(y0);
    StartFormula(y0 + 1);
    LongYears(y0 - 1);
  }

  /** Week and weekday tell the days since a Monday, and are told by them. */
  lemma WeekArithmetic(start: int, dp: int)
    requires DayOfWeek(start) == MONDAY && dp >= start
    ensures TruncDiv(dp - start, 7) == (dp - start) / 7
    ensures IsoEncoding(dp) == (dp - start) % 7 + 1
  {
    var w, r := (dp - start) / 7, (dp - start) % 7;
    var q := (start + 4) / 7;
    assert dp + 4 == 7 * (q + w) + 1 + r;
    ModUnique(dp + 4, 7, if r == 6 then q + w + 1 else q + w, if r == 6 then 0 else r + 1);
  }

  lemma {:induction false} StartOrder(y: int, z: int)
    requires y <= z
    ensures Start(y) <= Start(z)
    decreases z - y
  {
    hide Start, IsLeap;
    if y < z {
      StartOrder(y, z - 1);
      LongYears(z - 1);
    }
  }

  lemma ToDaysOfFromDays(dp: int)
    ensures Ok(FromDays(dp)) && ToDays(FromDays(dp)) == dp
  {
    hide Gregorian.FromDays, Gregorian.ToDays, Start, IsLeap, IsoEncoding, TruncDiv;
    var y := FromDays(dp).year;
    YearFound(dp);
    LongYears(y);
    StartIsMondayOfFirstWeek(y);
    WeekArithmetic(Start(y), dp);
  }

  lemma FromDaysOfToDays(x: WeekDate)
    requires Ok(x)
    ensures FromDays(ToDays(x)) == x
  {
    hide Gregorian.FromDays, Gregorian.ToDays, Start, IsLeap, IsoEncoding, TruncDiv;
    var dp := ToDays(x);
    var y := FromDays(dp).year;
    YearFound(dp);
    LongYears(x.year);
    if x.year < y {
      StartOrder(x.year + 1, y);
    } else if y < x.year {
      StartOrder(y + 1, x.year);
    }
    StartIsMondayOfFirstWeek(x.year);
    WeekArithmetic(Start(x.year), dp);
    ModUnique(dp - Start(x.year), 7, x.week - 1, x.weekday - 1);
  }
}
