/** Which dates `from_stream` of `Include/date/date.h` makes of which fields: a field that contradicts
    the others is refused, up to two that it does not look at. */
module StreamConflicts {
  import opened CalendarDate
  import opened CppArith
  import opened StreamFields
  import opened Weekdays
  import Gregorian
  import IsoWeek

  // ----- what the printed week numbers mean

  /** How many days from `a` to `b` are of this weekday. */
  function DaysOn(wd: int, a: int, b: int): nat
    decreases b - a + 1
  {
    if b < a then 0 else DaysOn(wd, a, b - 1) + if DayOfWeek(b) == wd then 1 else 0
  }

  lemma {:induction false} DaysOnCounted(wd: int, a: int, first: int, b: int)
    requires a <= first < a + 7 && DayOfWeek(first) == wd && a - 1 <= b
    ensures DaysOn(wd, a, b) == if b < first then 0 else (b - first) / 7 + 1
    decreases b - a + 1
  {
    if b >= a {
      DaysOnCounted(wd, a, first, b - 1);
      SameWeekday(first, b);
      if b > first {
        DivSucc(b - 1 - first, 7);
      }
    }
  }

  lemma SameWeekday(a: int, b: int)
    ensures DayOfWeek(a) == DayOfWeek(b) <==> (b - a) % 7 == 0
  {}

  /** `%U` and `%W` count the Sundays and the Mondays of the year up to the date. */
  lemma WeekNumberCounts(first: int, x: Date)
    requires first in {SUNDAY, MONDAY} && Gregorian.Valid(x)
    ensures WeekNumber(first, x) == DaysOn(first, Gregorian.ToDays(Date(x.year, 1, 1)), Gregorian.ToDays(x))
  {
    hide Gregorian.ToDays, Gregorian.Valid, FirstWeekday, DaysOn;
    FirstWeekdayIs(first, x.year);
    Gregorian.InYear(x);
    TruncNonnegative();
    DaysOnCounted(first, Gregorian.YearStart(x.year), FirstWeekday(first, x.year), Gregorian.ToDays(x));
  }

  // ----- fields that agree with a date

  /** The day number of the week date, the weeks counted on past the end of the year. */
  function WeekDay(f: Fields): int {
    IsoWeek.Start(f.G) + 7 * (f.V - 1) + (f.wd - 1) % 7
  }

  /** The day `j - 1` days after 1 January has the month and the day of the date. */
  predicate DayAgrees(j: int, x: Date) {
    var t := Gregorian.FromDays(Gregorian.ToDays(Date(x.year, 1, 1)) + (j - 1));
    t.month == x.month && t.day == x.day
  }

  predicate WeekAgrees(week: int, wd: int, x: Date) {
    week == NOT_A_WEEK_NUM || week == DaysOn(wd, Gregorian.ToDays(Date(x.year, 1, 1)), Gregorian.ToDays(x))
  }

  /** The fields agree with the date. With a weekday, ISO year and week are looked at only together, or
      if there is no other week number. */
  predicate Agrees(f: Fields, x: Date) {
    var dp := Gregorian.ToDays(x);
    var iso := IsoWeek.FromDays(dp);
    && f.Y in {NOT_A_YEAR, x.year} && f.m in {NOT_A_MONTH, x.month} && f.d in {NOT_A_DAY, x.day}
    && f.wd in {NOT_A_WEEKDAY, DayOfWeek(dp)}
    && WeekAgrees(f.U, 0, x) && WeekAgrees(f.W, 1, x)
    && (f.j != NOT_A_DOY ==> DayAgrees(f.j, x))
    && if f.wd != NOT_A_WEEKDAY && f.G != NOT_A_YEAR && f.V != NOT_A_WEEK_NUM then WeekDay(f) == dp
       else if f.wd != NOT_A_WEEKDAY && (f.U != NOT_A_WEEK_NUM || f.W != NOT_A_WEEK_NUM) then true
       else f.G in {NOT_A_YEAR, iso.year} && f.V in {NOT_A_WEEK_NUM, iso.week}
  }

  /** What is known of the date does not contradict `x`. */
  predicate Compatible(s: State, x: Date) {
    s.State? && s.f.Y in {NOT_A_YEAR, x.year} && s.f.m in {NOT_A_MONTH, x.month} && s.f.d in {NOT_A_DAY, x.day}
  }

  /** `r` has the fields of `s` but year, month and day. */
  predicate SameOthers(r: State, s: State) {
    r.State? && s.State? ==> r.f == s.f.(Y := r.f.Y, m := r.f.m, d := r.f.d)
  }

  lemma FillFor(s: State, trial: Date, computed: bool, x: Date)
    requires s.State? && trial.year == s.f.Y && Gregorian.Valid(x) && Gregorian.Valid(trial)
    ensures var r := Fill(s, trial, computed);
            && (Compatible(r, x) <==> Compatible(s, x) && (s.f.Y == NOT_A_YEAR || trial.year == x.year)
                                      && trial.month == x.month && trial.day == x.day)
            && SameOthers(r, s) && (r.State? ==> r.computed == computed && r.f.Y == s.f.Y)
            && (Compatible(r, x) ==> r.f.m == x.month && r.f.d == x.day)
  {
    hide Gregorian.LastDay;
  }

  lemma TrialIs(n: int, x: Date)
    requires Gregorian.Valid(x)
    ensures var t := Gregorian.FromDays(n); Gregorian.Valid(t) && (t == x <==> n == Gregorian.ToDays(x))
  {
    hide Gregorian.ToDays, Gregorian.FromDays, Gregorian.Valid;
    Gregorian.ToDaysOfFromDays(n);
    Gregorian.FromDaysOfToDays(x);
  }

  lemma IsoFor(s: State, x: Date)
    requires s.State? && Gregorian.Valid(x) && x.year != NOT_A_YEAR
    ensures var r := FromIsoWeek(s);
            && SameOthers(r, s)
            && if s.f.G != NOT_A_YEAR && s.f.V != NOT_A_WEEK_NUM && s.f.wd != NOT_A_WEEKDAY
               then (Compatible(r, x) && r.f.Y == x.year <==> Compatible(s, x) && WeekDay(s.f) == Gregorian.ToDays(x))
                    && (r.State? ==> r.computed)
                    && (Compatible(r, x) && r.f.Y == x.year ==> r.f.m == x.month && r.f.d == x.day)
               else r == s
  {
    hide Gregorian.ToDays, Gregorian.FromDays, Gregorian.Valid, IsoWeek.Start, Difference, Fill;
    DifferenceIsForward(s.f.wd, MONDAY);
    var n := IsoWeek.Start(s.f.G) + 7 * (s.f.V - 1) + Difference(s.f.wd, MONDAY);
    var trial := Gregorian.FromDays(n);
    TrialIs(n, x);
    if s.f.Y == NOT_A_YEAR {
      FillFor(State(s.f.(Y := trial.year), s.computed), trial, true, x);
    } else if s.f.Y == trial.year {
      FillFor(s, trial, true, x);
    }
  }

  /** A week number and a weekday lead to the date exactly if they are its own. */
  lemma WeekOfDate(first: int, week: int, wd: int, x: Date)
    requires first in {SUNDAY, MONDAY} && Gregorian.Valid(x)
    ensures var dp := Gregorian.ToDays(x);
            FirstWeekday(first, x.year) + 7 * (week - 1) + Difference(wd, first) == dp && wd == DayOfWeek(dp)
            <==> week == WeekNumber(first, x) && wd == DayOfWeek(dp)
  {
    hide Gregorian.ToDays, Gregorian.Valid, FirstWeekday, WeekNumber, Difference;
    WeekNumberRebuilds(first, x);
    DifferenceIsForward(DayOfWeek(Gregorian.ToDays(x)), SUNDAY);
  }

  lemma WeekFor(s: State, first: int, x: Date)
    requires s.State? && first in {SUNDAY, MONDAY} && Gregorian.Valid(x) && x.year != NOT_A_YEAR
    ensures var week := if first == SUNDAY then s.f.U else s.f.W;
            var r := FromWeekNumber(s, week, first);
            && SameOthers(r, s) && (r.State? ==> r.f.Y == s.f.Y)
            && if s.f.Y != NOT_A_YEAR && week != NOT_A_WEEK_NUM && s.f.wd != NOT_A_WEEKDAY
               then (Compatible(r, x)
                     <==> Compatible(s, x)
                          && FirstWeekday(first, x.year) + 7 * (week - 1) + Difference(s.f.wd, first) == Gregorian.ToDays(x))
                    && (r.State? ==> r.computed) && (Compatible(r, x) ==> r.f.m == x.month && r.f.d == x.day)
               else r == s
  {
    hide Gregorian.ToDays, Gregorian.FromDays, Gregorian.Valid, FirstWeekday, Difference, Fill;
    var week := if first == SUNDAY then s.f.U else s.f.W;
    var n := FirstWeekday(first, s.f.Y) + 7 * (week - 1) + Difference(s.f.wd, first);
    TrialIs(n, x);
    if s.f.Y == Gregorian.FromDays(n).year {
      FillFor(s, Gregorian.FromDays(n), true, x);
    }
  }

  lemma DayFor(s: State, x: Date)
    requires s.State? && Gregorian.Valid(x) && x.year != NOT_A_YEAR && s.f.Y == x.year
    ensures var r := FromDayOfYear(s);
            && SameOthers(r, s) && (r.State? ==> r.computed == s.computed && r.f.Y == s.f.Y)
            && if s.f.j != NOT_A_DOY
               then (Compatible(r, x) <==> Compatible(s, x) && DayAgrees(s.f.j, x))
                    && (Compatible(r, x) ==> r.f.m == x.month && r.f.d == x.day)
               else r == s
  {
    hide Gregorian.ToDays, Gregorian.LastDay, Gregorian.FromDays;
    Gregorian.ToDaysOfFromDays(Gregorian.ToDays(Date(s.f.Y, 1, 1)) + (s.f.j - 1));
  }

  lemma DayKeepsYear(s: State)
    requires s.State?
    ensures var r := FromDayOfYear(s); r.State? ==> r.f.Y == s.f.Y
  {
    hide Gregorian.ToDays, Gregorian.FromDays;
  }

  lemma FinishFor(s: State, x: Date)
    requires s.State? && Gregorian.Valid(x) && x.year != NOT_A_YEAR
    ensures Finish(s) == Parsed(x) <==> s.f.Y == x.year && s.f.m == x.month && s.f.d == x.day && ConsistentWith(s, x)
  {
    hide Gregorian.ToDays, Gregorian.LastDay, IsoWeek.FromDays, FirstWeekday, WeekNumber, Difference, DaysOn;
    DifferenceIsForward(DayOfWeek(Gregorian.ToDays(x)), SUNDAY);
    WeekNumberRebuilds(SUNDAY, x);
    WeekNumberRebuilds(MONDAY, x);
    WeekNumberCounts(SUNDAY, x);
    WeekNumberCounts(MONDAY, x);
  }

  predicate ConsistentWith(s: State, x: Date)
    requires s.State?
  {
    var iso := IsoWeek.FromDays(Gregorian.ToDays(x));
    && s.f.wd in {NOT_A_WEEKDAY, DayOfWeek(Gregorian.ToDays(x))}
    && (!s.computed ==> s.f.G in {NOT_A_YEAR, iso.year} && s.f.V in {NOT_A_WEEK_NUM, iso.week}
                        && WeekAgrees(s.f.U, 0, x) && WeekAgrees(s.f.W, 1, x))
  }

  predicate YearInRange(f: Fields) {
    f.Y == NOT_A_YEAR || -32767 <= f.Y <= 32767
  }

  /** `from_stream` makes a date of the fields exactly if they are enough to name one and agree with it. */
  lemma ResolvedIffAgrees(f: Fields, x: Date)
    requires YearInRange(f) && Printable(x)
    ensures Resolve(f) == Parsed(x) <==> Enough(f) && Agrees(f, x)
  {
    hide FromIsoWeek, FromWeekNumber, FromDayOfYear, Finish, Gregorian.ToDays, Gregorian.LastDay, Gregorian.FromDays;
    hide IsoWeek.FromDays, FirstWeekday, DaysOn, DayAgrees, WeekDay, Difference, WeekNumber;
    PrintableYear(x);
    WeekNumberCounts(SUNDAY, x);
    WeekNumberCounts(MONDAY, x);
    WeekOfDate(SUNDAY, f.U, f.wd, x);
    WeekOfDate(MONDAY, f.W, f.wd, x);
    var s0 := State(f, false);
    IsoFor(s0, x);
    var s1 := FromIsoWeek(s0);
    if s1.State? {
      WeekFor(s1, SUNDAY, x);
      var s2 := FromWeekNumber(s1, s1.f.U, SUNDAY);
      if s2.State? {
        WeekFor(s2, MONDAY, x);
        var s3 := FromWeekNumber(s2, s2.f.W, MONDAY);
        if s3.State? {
          var s4 := FromDayOfYear(s3);
          DayKeepsYear(s3);
          if s3.f.Y == x.year {
            DayFor(s3, x);
          }
          if s4.State? {
            FinishFor(s4, x);
          }
        }
      }
    }
  }

  /** Two fields that contradict the others and are not refused: the day 366 of a year that has 365 is
      read as its first day, and beside another week number an ISO year is not looked at. */
  lemma NotRefused(y: int, x: Date, G: int)
    requires !Gregorian.IsLeap(y) && Printable(Date(y, 1, 1)) && Printable(x)
    ensures var f := Fields(y, NOT_A_MONTH, NOT_A_DAY, NOT_A_YEAR, NOT_A_WEEK_NUM, NOT_A_WEEK_NUM, NOT_A_WEEK_NUM, 366, NOT_A_WEEKDAY);
            Resolve(f) == Parsed(Date(y, 1, 1)) && Print(Date(y, 1, 1)).j == 1
    ensures var p := Print(x);
            var f := Fields(x.year, NOT_A_MONTH, NOT_A_DAY, G, NOT_A_WEEK_NUM, p.U, NOT_A_WEEK_NUM, NOT_A_DOY, p.wd);
            Resolve(f) == Parsed(x)
  {
    hide Gregorian.ToDays, Gregorian.FromDays, Resolve, Gregorian.LastDay, Gregorian.IsLeap, IsoWeek.FromDays, WeekNumber;
    hide DaysOn, Difference, WeekDay;
    PrintableYear(Date(y, 1, 1));
    PrintableYear(x);
    Gregorian.YearLength(y);
    Gregorian.FromDaysOfToDays(Date(y + 1, 1, 1)) by { NewYearIsValid(y + 1); }
    var f := Fields(y, NOT_A_MONTH, NOT_A_DAY, NOT_A_YEAR, NOT_A_WEEK_NUM, NOT_A_WEEK_NUM, NOT_A_WEEK_NUM, 366, NOT_A_WEEKDAY);
    ResolvedIffAgrees(f, Date(y, 1, 1));
    var g := Fields(x.year, NOT_A_MONTH, NOT_A_DAY, G, NOT_A_WEEK_NUM, Print(x).U, NOT_A_WEEK_NUM, NOT_A_DOY, Print(x).wd);
    DifferenceIsForward(DayOfWeek(Gregorian.ToDays(x)), SUNDAY);
    WeekNumberCounts(SUNDAY, x);
    WeekNumberRebuilds(SUNDAY, x);
    ResolvedIffAgrees(g, x);
  }

  lemma NewYearIsValid(y: int)
    ensures Gregorian.Valid(Date(y, 1, 1))
  {}
}
