/** The date fields of `to_stream` and how `from_stream` puts a date back together from them
    (`%Y %m %d %G %V %U %W %j %w` of `Include/date/date.h`), on the numbers the directives carry. */
module StreamFields {
  import opened CalendarDate
  import opened CppArith
  import opened Weekdays
  import Gregorian
  import IsoWeek

  const NOT_A_YEAR := -0x8000
  const NOT_A_MONTH := 0
  const NOT_A_DAY := 0
  const NOT_A_DOY := -1
  const NOT_A_WEEKDAY := 8
  const NOT_A_WEEK_NUM := 100
  const SUNDAY := 0
  const MONDAY := 1

  datatype Fields = Fields(Y: int, m: int, d: int, G: int, V: int, U: int, W: int, j: int, wd: int)

  datatype Outcome = Broken | Parsed(date: Date)

  /** `date::year::ok` together with the fields of the date. */
  predicate DateOk(x: Date) {
    x.year != NOT_A_YEAR && Gregorian.Valid(x)
  }

  // ----- what to_stream prints

  /** `Sunday[1]/January/y` or `Monday[1]/January/y`. */
  function FirstWeekday(wd: int, y: int): int {
    Weekdays.ToDays(IndexedWeekday(y, 1, wd, 1))
  }

  /** `%U` and `%W`: weeks since the first such weekday of the year. */
  function WeekNumber(wd: int, x: Date): int {
    var ld := Gregorian.ToDays(x);
    var st := FirstWeekday(wd, x.year);
    if ld < st then 0 else TruncDiv(ld - st, 7) + 1
  }

  function Print(x: Date): Fields {
    var ld := Gregorian.ToDays(x);
    var iso := IsoWeek.FromDays(ld);
    Fields(x.year, x.month, x.day, iso.year, iso.week, WeekNumber(SUNDAY, x), WeekNumber(MONDAY, x),
           ld - Gregorian.ToDays(Date(x.year, 1, 1)) + 1, Difference(DayOfWeek(ld), SUNDAY))
  }

  // ----- what from_stream does with the fields it read

  datatype State = Stuck | State(f: Fields, computed: bool)

  /** Set the month and the day from a trial date, or find that they contradict it. */
  function Fill(s: State, trial: Date, computed: bool): State
    requires s.State?
  {
    var m := if s.f.m == NOT_A_MONTH then trial.month else s.f.m;
    var d := if s.f.d == NOT_A_DAY then trial.day else s.f.d;
    if m != trial.month || d != trial.day then Stuck
    else State(s.f.(m := m, d := d), computed)
  }

  function FromIsoWeek(s: State): State
    requires s.State?
  {
    var f := s.f;
    if f.G == NOT_A_YEAR || f.V == NOT_A_WEEK_NUM || f.wd == NOT_A_WEEKDAY then s
    else
      var trial := Gregorian.FromDays(IsoWeek.Start(f.G) + 7 * (f.V - 1) + Difference(f.wd, MONDAY));
      if f.Y == NOT_A_YEAR then Fill(State(f.(Y := trial.year), s.computed), trial, true)
      else if f.Y != trial.year then Stuck
      else Fill(s, trial, true)
  }

  function FromWeekNumber(s: State, week: int, first: int): State
    requires s.State?
  {
    var f := s.f;
    if f.Y == NOT_A_YEAR || week == NOT_A_WEEK_NUM || f.wd == NOT_A_WEEKDAY then s
    else
      var trial := Gregorian.FromDays(FirstWeekday(first, f.Y) + 7 * (week - 1) + Difference(f.wd, first));
      if f.Y != trial.year then Stuck else Fill(s, trial, true)
  }

  function FromDayOfYear(s: State): State
    requires s.State?
  {
    var f := s.f;
    if f.j == NOT_A_DOY || f.Y == NOT_A_YEAR then s
    else Fill(s, Gregorian.FromDays(Gregorian.ToDays(Date(f.Y, 1, 1)) + (f.j - 1)), s.computed)
  }

  /** The fields that were not used must agree with the date. */
  predicate Consistent(s: State)
    requires s.State?
  {
    var f := s.f;
    var x := Date(f.Y, f.m, f.d);
    var sd := Gregorian.ToDays(x);
    var iso := IsoWeek.FromDays(sd);
    && (f.wd != NOT_A_WEEKDAY ==> f.wd == Difference(DayOfWeek(sd), SUNDAY))
    && (!s.computed ==>
          && (f.G != NOT_A_YEAR ==> f.G == iso.year)
          && (f.V != NOT_A_WEEK_NUM ==> f.V == iso.week)
          && (f.U != NOT_A_WEEK_NUM ==> f.U == (sd - FirstWeekday(SUNDAY, f.Y)) / 7 + 1)
          && (f.W != NOT_A_WEEK_NUM ==> f.W == (sd - FirstWeekday(MONDAY, f.Y)) / 7 + 1))
  }

  function Finish(s: State): Outcome
    requires s.State?
  {
    var x := Date(s.f.Y, s.f.m, s.f.d);
    if DateOk(x) && !Consistent(s) then Broken else Parsed(x)
  }

  function Resolve(f: Fields): Outcome {
    var Y := if f.Y < -32767 || f.Y > 32767 then NOT_A_YEAR else f.Y;
    var s0 := State(f.(Y := Y), false);
    var s1 := FromIsoWeek(s0);
    if s1.Stuck? then Broken else
    var s2 := FromWeekNumber(s1, s1.f.U, SUNDAY);
    if s2.Stuck? then Broken else
    var s3 := FromWeekNumber(s2, s2.f.W, MONDAY);
    if s3.Stuck? then Broken else
    var s4 := FromDayOfYear(s3);
    if s4.Stuck? then Broken else Finish(s4)
  }

  // ----- the theorem

  /** `f` holds some of the fields of `p` and nothing else. */
  predicate PartOf(f: Fields, p: Fields) {
    && f.Y in {NOT_A_YEAR, p.Y} && f.m in {NOT_A_MONTH, p.m} && f.d in {NOT_A_DAY, p.d}
    && f.G in {NOT_A_YEAR, p.G} && f.V in {NOT_A_WEEK_NUM, p.V} && f.U in {NOT_A_WEEK_NUM, p.U}
    && f.W in {NOT_A_WEEK_NUM, p.W} && f.j in {NOT_A_DOY, p.j} && f.wd in {NOT_A_WEEKDAY, p.wd}
  }

  /** The fields that are enough to name a day. */
  predicate Enough(f: Fields) {
    || (f.G != NOT_A_YEAR && f.V != NOT_A_WEEK_NUM && f.wd != NOT_A_WEEKDAY)
    || (f.Y != NOT_A_YEAR && f.U != NOT_A_WEEK_NUM && f.wd != NOT_A_WEEKDAY)
    || (f.Y != NOT_A_YEAR && f.W != NOT_A_WEEK_NUM && f.wd != NOT_A_WEEKDAY)
    || (f.Y != NOT_A_YEAR && f.j != NOT_A_DOY)
    || (f.Y != NOT_A_YEAR && f.m != NOT_A_MONTH && f.d != NOT_A_DAY)
  }

  lemma FirstWeekdayIs(wd: int, y: int)
    requires wd in {SUNDAY, MONDAY}
    ensures FirstWeekday(wd, y) == Gregorian.YearStart(y) + (wd - DayOfWeek(Gregorian.YearStart(y))) % 7
    ensures DayOfWeek(FirstWeekday(wd, y)) == wd
  {
    hide Gregorian.ToDays, Difference;
    DifferenceIsForward(wd, DayOfWeek(Gregorian.YearStart(y)));
    var x := IndexedWeekday(y, 1, wd, 1);
    ToDaysNamesDay(x);
    DayNamedHasWeekday(x);
  }

  /** Weeks and weekday, counted from a day of that weekday up to six days ahead, tell the day. */
  lemma WeekdayArithmetic(first: int, start: int, dp: int)
    requires first in {SUNDAY, MONDAY} && DayOfWeek(start) == first
    ensures Difference(Difference(DayOfWeek(dp), SUNDAY), first) == (dp - start) % 7
    ensures start + 7 * ((dp - start) / 7) + Difference(Difference(DayOfWeek(dp), SUNDAY), first) == dp
    ensures 0 <= Difference(DayOfWeek(dp), SUNDAY) < 7
  {
    hide Difference;
    DifferenceIsForward(DayOfWeek(dp), SUNDAY);
    DifferenceIsForward(Difference(DayOfWeek(dp), SUNDAY), first);
    var w, r := (dp - start) / 7, (dp - start) % 7;
    var q := (start + 4) / 7;
    assert dp + 4 == 7 * (q + w) + first + r;
    ModUnique(dp + 4, 7, if first + r >= 7 then q + w + 1 else q + w, if first + r >= 7 then first + r - 7 else first + r);
  }

  /** The printed week number is the floor that `from_stream` checks against, and rebuilds the day. */
  lemma WeekNumberRebuilds(first: int, x: Date)
    requires first in {SUNDAY, MONDAY} && Gregorian.Valid(x)
    ensures var dp := Gregorian.ToDays(x);
            && WeekNumber(first, x) == (dp - FirstWeekday(first, x.year)) / 7 + 1
            && 0 <= WeekNumber(first, x) < NOT_A_WEEK_NUM
            && FirstWeekday(first, x.year) + 7 * (WeekNumber(first, x) - 1)
               + Difference(Difference(DayOfWeek(dp), SUNDAY), first) == dp
  {
    hide Gregorian.ToDays, Gregorian.YearStart, Gregorian.Valid, Gregorian.IsLeap, Difference, FirstWeekday;
    var dp := Gregorian.ToDays(x);
    FirstWeekdayIs(first, x.year);
    Gregorian.InYear(x);
    Gregorian.YearLength(x.year);
    WeekdayArithmetic(first, FirstWeekday(first, x.year), dp);
  }

  lemma IsoWeekRebuilds(x: Date)
    requires Gregorian.Valid(x)
    ensures var dp := Gregorian.ToDays(x);
            var iso := IsoWeek.FromDays(dp);
            && 1 <= iso.week < NOT_A_WEEK_NUM
            && IsoWeek.Start(iso.year) + 7 * (iso.week - 1)
               + Difference(Difference(DayOfWeek(dp), SUNDAY), MONDAY) == dp
  {
    hide Gregorian.ToDays, Gregorian.FromDays, Gregorian.Valid;
    hide Difference, IsoWeek.Start, IsoWeek.IsLeap, IsoWeek.IsoEncoding, TruncDiv;
    var dp := Gregorian.ToDays(x);
    var iso := IsoWeek.FromDays(dp);
    IsoWeek.YearFound(dp);
    IsoWeek.ToDaysOfFromDays(dp);
    IsoWeek.StartIsMondayOfFirstWeek(iso.year);
    IsoWeek.WeekArithmetic(IsoWeek.Start(iso.year), dp);
    WeekdayArithmetic(MONDAY, IsoWeek.Start(iso.year), dp);
  }

  /** The dates for which no year met on the way leaves the range of `year`: not that of the date, not
      its ISO year and not the year of three days later, from which that is found. */
  predicate Printable(x: Date) {
    var dp := Gregorian.ToDays(x);
    && Gregorian.Valid(x) && -32767 <= x.year <= 32767
    && -32767 <= IsoWeek.FromDays(dp).year && Gregorian.FromDays(dp + 3).year <= 32767
  }

  lemma PrintableYear(x: Date)
    requires Printable(x)
    ensures -32767 <= x.year <= 32767
  {}

  predicate Complete(f: Fields, x: Date) {
    f.Y == x.year && f.m == x.month && f.d == x.day
  }

  /** `r` is `s` with nothing but year, month and day possibly filled in. */
  predicate Extends(r: State, s: State, x: Date)
    requires s.State?
  {
    && r.State? && PartOf(r.f, Print(x))
    && r.f == s.f.(Y := r.f.Y, m := r.f.m, d := r.f.d)
    && (s.f.Y != NOT_A_YEAR ==> r.f.Y == s.f.Y)
    && (Complete(s.f, x) ==> Complete(r.f, x))
  }

  lemma FillAgrees(s: State, x: Date, computed: bool)
    requires s.State? && Printable(x) && PartOf(s.f, Print(x)) && s.f.Y == x.year
    ensures var r := Fill(s, x, computed); Extends(r, s, x) && Complete(r.f, x)
  {
    hide Print, IsoWeek.FromDays, Gregorian.FromDays, Gregorian.ToDays;
    assert Print(x).m == x.month && Print(x).d == x.day && Print(x).Y == x.year by { PrintedDate(x); }
  }

  lemma PrintedDate(x: Date)
    ensures Print(x).Y == x.year && Print(x).m == x.month && Print(x).d == x.day
  {}

  lemma IsoStep(s: State, x: Date)
    requires s.State? && Printable(x) && PartOf(s.f, Print(x))
    ensures var r := FromIsoWeek(s);
            && Extends(r, s, x)
            && (s.f.G != NOT_A_YEAR && s.f.V != NOT_A_WEEK_NUM && s.f.wd != NOT_A_WEEKDAY ==> Complete(r.f, x))
  {
    hide Gregorian.ToDays, Gregorian.FromDays, Gregorian.Valid, IsoWeek.Start, IsoWeek.FromDays, Difference, WeekNumber, Fill;
    IsoWeekRebuilds(x);
    Gregorian.FromDaysOfToDays(x);
    FillAgrees(if s.f.Y == NOT_A_YEAR then State(s.f.(Y := x.year), s.computed) else s, x, true);
  }

  lemma WeekNumberStep(s: State, first: int, x: Date)
    requires s.State? && Printable(x) && PartOf(s.f, Print(x)) && first in {SUNDAY, MONDAY}
    ensures var week := if first == SUNDAY then s.f.U else s.f.W;
            var r := FromWeekNumber(s, week, first);
            && Extends(r, s, x)
            && (s.f.Y != NOT_A_YEAR && week != NOT_A_WEEK_NUM && s.f.wd != NOT_A_WEEKDAY ==> Complete(r.f, x))
  {
    hide Gregorian.ToDays, Gregorian.FromDays, Gregorian.Valid, IsoWeek.FromDays, Difference, WeekNumber, FirstWeekday, Fill;
    WeekNumberRebuilds(first, x);
    Gregorian.FromDaysOfToDays(x);
    if s.f.Y == x.year {
      FillAgrees(s, x, true);
    }
  }

  lemma DayOfYearStep(s: State, x: Date)
    requires s.State? && Printable(x) && PartOf(s.f, Print(x))
    ensures var r := FromDayOfYear(s);
            && Extends(r, s, x)
            && (s.f.Y != NOT_A_YEAR && s.f.j != NOT_A_DOY ==> Complete(r.f, x))
  {
    hide Gregorian.ToDays, Gregorian.FromDays, Gregorian.Valid, IsoWeek.FromDays, Difference, WeekNumber, Fill;
    Gregorian.FromDaysOfToDays(x);
    if s.f.Y == x.year {
      FillAgrees(s, x, s.computed);
    }
  }

  lemma FinishAgrees(s: State, x: Date)
    requires s.State? && Printable(x) && PartOf(s.f, Print(x))
    ensures Finish(s).Parsed?
    ensures Complete(s.f, x) ==> Finish(s).date == x
  {
    hide Gregorian.ToDays, Gregorian.FromDays, IsoWeek.FromDays, Difference, WeekNumber, FirstWeekday, Gregorian.LastDay;
    if DateOk(Date(s.f.Y, s.f.m, s.f.d)) {
      assert Date(s.f.Y, s.f.m, s.f.d) == x;
      WeekNumberRebuilds(SUNDAY, x);
      WeekNumberRebuilds(MONDAY, x);
    }
  }

  /** Whatever subset of the printed fields is read back, `from_stream` finds no contradiction,
      and where the subset is enough to name a day it finds the date that was printed. */
  lemma PrintedFieldsRebuildDate(f: Fields, x: Date)
    requires Printable(x) && PartOf(f, Print(x))
    ensures Resolve(f).Parsed?
    ensures Enough(f) ==> Resolve(f).date == x
  {
    hide Print, FromIsoWeek, FromWeekNumber, FromDayOfYear, Finish, Printable;
    PrintedDate(x);
    assert -32767 <= x.year <= 32767 by { PrintableYear(x); }
    var s0 := State(f, false);
    IsoStep(s0, x);
    var s1 := FromIsoWeek(s0);
    WeekNumberStep(s1, SUNDAY, x);
    var s2 := FromWeekNumber(s1, s1.f.U, SUNDAY);
    WeekNumberStep(s2, MONDAY, x);
    var s3 := FromWeekNumber(s2, s2.f.W, MONDAY);
    DayOfYearStep(s3, x);
    FinishAgrees(FromDayOfYear(s3), x);
  }
}
