/** POSIX time zones: the transition rules and the conversions of `Include/date/ptz.h`. Times are
    whole seconds since 1970-01-01, of UTC ("sys") or of a wall clock ("local"). */
module PosixZone {
  import opened CalendarDate
  import opened Weekdays
  import Gregorian

  const DAY := 86400

  datatype Rule =
    | Off
    | J(n: int, time: int)
    | M(month: int, week: int, weekday: int, time: int)
    | N(n: int, time: int)

  /** `rule::operator()`: the wall-clock second of the transition in year `y`. */
  function RuleAt(r: Rule, y: int): int
    requires !r.Off?
  {
    match r
    case J(n, time) =>
      (Gregorian.ToDays(Date(y, 1, 0)) + n + (if Gregorian.IsLeap(y) && n > 59 then 1 else 0)) * DAY + time
    case M(m, n, wd, time) =>
      (if n == 5 then LastToDays(y, m, wd) else Weekdays.ToDays(IndexedWeekday(y, m, wd, n))) * DAY + time
    case N(n, time) =>
      (Gregorian.ToDays(Date(y, 1, 1)) + n) * DAY + time
  }

  datatype Zone = Zone(std: string, dst: string, offset: int, save: int, start: Rule, end: Rule)

  datatype Info = Info(begin: int, end: int, offset: int, save: int, abbrev: string)

  function Start(z: Zone, y: int): int
    requires !z.start.Off?
  {
    RuleAt(z.start, y) - z.offset
  }

  function End(z: Zone, y: int): int
    requires !z.end.Off?
  {
    RuleAt(z.end, y) - (z.offset + z.save)
  }

  function CeilMinutes(s: int): int {
    -((-s) / 60)
  }

  function Standard(z: Zone, begin: int, end: int): Info {
    Info(begin, end, z.offset, 0, z.std)
  }

  function Daylight(z: Zone, begin: int, end: int): Info {
    Info(begin, end, z.offset + z.save, CeilMinutes(z.save), z.dst)
  }

  function ConstantOffset(z: Zone): Info {
    var begin := Gregorian.ToDays(Date(-32767, 1, 1)) * DAY;
    var end := Gregorian.ToDays(Date(32767, 12, 31)) * DAY;
    if |z.std| > 0 then Standard(z, begin, end) else Daylight(z, begin, end)
  }

  /** The calendar year that holds second `t`. */
  function YearOf(t: int): int {
    Gregorian.FromDays(t / DAY).year
  }

  /** The year whose transitions `get_info` looks at. */
  function RuleYear(z: Zone, st: int): int
    requires !z.start.Off? && !z.end.Off?
  {
    var y := YearOf(st);
    if st >= Start(z, y + 1) then y + 1
    else if st < End(z, y - 1) then y - 1
    else y
  }

  function InfoInYear(z: Zone, st: int, y: int): Info
    requires !z.start.Off? && !z.end.Off?
  {
    var start := Start(z, y);
    var end := End(z, y);
    if start <= end then
      if start <= st < end then Daylight(z, start, end)
      else if st < start then Standard(z, End(z, y - 1), start)
      else Standard(z, end, Start(z, y + 1))
    else
      if end <= st < start then Standard(z, end, start)
      else if st < end then Daylight(z, Start(z, y - 1), end)
      else Daylight(z, start, End(z, y + 1))
  }

  function GetInfo(z: Zone, st: int): Info
    requires z.start.Off? <==> z.end.Off?
  {
    if !z.start.Off? then InfoInYear(z, st, RuleYear(z, st)) else ConstantOffset(z)
  }

  function ToLocal(z: Zone, st: int): int
    requires z.start.Off? <==> z.end.Off?
  {
    st + GetInfo(z, st).offset
  }

  // ----- where transitions can lie

  predicate RuleOk(r: Rule) {
    match r
    case Off => false
    case J(n, time) => 1 <= n <= 365 && 0 <= time < 25 * 3600
    case M(m, n, wd, time) => 1 <= m <= 12 && 1 <= n <= 5 && 0 <= wd <= 6 && 0 <= time < 25 * 3600
    case N(n, time) => 0 <= n <= 365 && 0 <= time < 25 * 3600
  }

  const OFFSET_LIMIT := 26 * 3600

  /** A zone with rules, of the values the constructor can read. */
  predicate ZoneOk(z: Zone) {
    && RuleOk(z.start) && RuleOk(z.end)
    && -OFFSET_LIMIT < z.offset < OFFSET_LIMIT && -OFFSET_LIMIT < z.offset + z.save < OFFSET_LIMIT
  }

  /** The second a year begins. */
  function YearBegin(y: int): int {
    Gregorian.YearStart(y) * DAY
  }

  lemma YearBeginStep(y: int)
    ensures YearBegin(y) + 365 * DAY <= YearBegin(y + 1) <= YearBegin(y) + 366 * DAY
  {
    hide Gregorian.YearStart, Gregorian.IsLeap;
    Gregorian.YearLength(y);
  }

  lemma YearOfSecond(t: int)
    ensures YearBegin(YearOf(t)) <= t < YearBegin(YearOf(t) + 1)
  {
    hide Gregorian.YearStart, Gregorian.FromDays;
    Gregorian.YearOfDay(t / DAY);
  }

  lemma YearOfUnique(t: int, y: int)
    requires YearBegin(y) <= t < YearBegin(y + 1)
    ensures YearOf(t) == y
  {
    hide Gregorian.YearStart, Gregorian.FromDays;
    Gregorian.YearOfDay(t / DAY);
    Gregorian.YearIsUnique(t / DAY, y, YearOf(t));
  }

  /** The day of the `week`-th such weekday, 5 meaning the last, as a day of its month. */
  lemma MonthRuleDay(y: int, m: int, n: int, wd: int) returns (d: int)
    requires 1 <= m <= 12 && 1 <= n <= 5 && 0 <= wd <= 6
    ensures Gregorian.Valid(Date(y, m, d)) && DayOfWeek(Gregorian.ToDays(Date(y, m, d))) == wd
    ensures if n < 5 then 7 * (n - 1) < d <= 7 * n else d + 7 > Gregorian.LastDay(y, m)
    ensures forall time :: RuleAt(M(m, n, wd, time), y) == Gregorian.ToDays(Date(y, m, d)) * 86400 + time
  {
    hide Gregorian.ToDays, Gregorian.LastDay, LastToDays, Weekdays.ToDays;
    if n == 5 {
      d := LastIsLast(y, m, wd);
    } else {
      var x := IndexedWeekday(y, m, wd, n);
      d := DayNamed(x);
      ToDaysNamesDay(x);
      LastDayRange(y, m);
      DayNamedHasWeekday(x);
    }
  }

  /** The rule names the date `x` in year `y`: day `n` of the year with 29 February not counted; the
      `n`-th such weekday of the month, or the last one; the date `n` days after 1 January. */
  ghost predicate NamesDate(r: Rule, y: int, x: Date) {
    Gregorian.Valid(x)
    && match r
       case Off => false
       case J(n, _) =>
         x.year == y && !(x.month == 2 && x.day == 29)
         && [0, 31, 59, 90, 120, 151, 181, 212, 243, 273, 304, 334][x.month - 1] + x.day == n
       case M(m, n, wd, _) =>
         x.year == y && x.month == m && DayOfWeek(Gregorian.ToDays(x)) == wd
         && if n < 5 then 7 * (n - 1) < x.day <= 7 * n else x.day + 7 > Gregorian.LastDay(y, m)
       case N(n, _) => n >= 0 && x == Gregorian.Count(Date(y, 1, 1), n)
  }

  /** Every rule names a date of each year, and means its time on that date. */
  lemma RuleIsDate(r: Rule, y: int)
    requires RuleOk(r)
    ensures exists x :: NamesDate(r, y, x) && RuleAt(r, y) == Gregorian.ToDays(x) * 86400 + r.time
  {
    hide Gregorian.ToDays, Gregorian.LastDay, Gregorian.IsLeap, LastToDays, Weekdays.ToDays, Gregorian.FromDays, Gregorian.Count;
    match r
    case J(n, time) =>
      var x := JulianDate(y, n);
      assert NamesDate(r, y, x);
    case N(n, time) =>
      var first := Date(y, 1, 1);
      assert Gregorian.Valid(first) by { FirstIsValid(y); }
      Gregorian.CountIsFromDays(first, n);
      Gregorian.ToDaysOfFromDays(Gregorian.ToDays(first) + n);
      assert NamesDate(r, y, Gregorian.Count(first, n));
    case M(m, n, wd, time) =>
      var d := MonthRuleDay(y, m, n, wd);
      assert NamesDate(r, y, Date(y, m, d));
  }

  lemma FirstIsValid(y: int)
    ensures Gregorian.Valid(Date(y, 1, 1))
  {}

  lemma JulianDate(y: int, n: int) returns (x: Date)
    requires 1 <= n <= 365
    ensures forall time :: NamesDate(J(n, time), y, x) && RuleAt(J(n, time), y) == Gregorian.ToDays(x) * 86400 + time
  {
    hide Gregorian.ToDays, Gregorian.IsLeap;
    var starts := [0, 31, 59, 90, 120, 151, 181, 212, 243, 273, 304, 334];
    var m := if n <= 31 then 1 else if n <= 59 then 2 else if n <= 90 then 3 else if n <= 120 then 4
             else if n <= 151 then 5 else if n <= 181 then 6 else if n <= 212 then 7 else if n <= 243 then 8
             else if n <= 273 then 9 else if n <= 304 then 10 else if n <= 334 then 11 else 12;
    x := Date(y, m, n - starts[m - 1]);
    DayZero(y);
    Gregorian.ToDaysByYear(x);
  }

  lemma RuleBounds(r: Rule, y: int)
    requires RuleOk(r)
    ensures YearBegin(y) <= RuleAt(r, y) < YearBegin(y + 1) + 25 * 3600
  {
    hide Gregorian.ToDays, Gregorian.IsLeap, Gregorian.LastDay, LastToDays, Weekdays.ToDays;
    Gregorian.YearLength(y);
    match r
    case J(n, time) =>
      Gregorian.ToDaysIsCivilDays(Date(y, 1, 0));
      Gregorian.ToDaysIsCivilDays(Date(y, 1, 1));
    case N(n, time) =>
    case M(m, n, wd, time) =>
      var d := MonthRuleDay(y, m, n, wd);
      Gregorian.InYear(Date(y, m, d));
  }

  /** A rule's transitions are most of a year apart. */
  lemma RuleGap(r: Rule, y: int)
    requires RuleOk(r)
    ensures RuleAt(r, y) + 300 * DAY <= RuleAt(r, y + 1)
  {
    hide Gregorian.ToDays, Gregorian.IsLeap, Gregorian.LastDay, LastToDays, Weekdays.ToDays;
    Gregorian.YearLength(y);
    match r
    case J(n, time) =>
      DayZero(y);
      DayZero(y + 1);
    case N(n, time) =>
    case M(m, n, wd, time) =>
      var d := MonthRuleDay(y, m, n, wd);
      var d' := MonthRuleDay(y + 1, m, n, wd);
      LastDayRange(y, m);
      LastDayRange(y + 1, m);
      MonthAYearOn(y, m, d, d');
  }

  lemma DayZero(y: int)
    ensures Gregorian.ToDays(Date(y, 1, 0)) == Gregorian.YearStart(y) - 1
  {
    hide Gregorian.ToDays;
    Gregorian.ToDaysIsCivilDays(Date(y, 1, 0));
    Gregorian.ToDaysIsCivilDays(Date(y, 1, 1));
  }

  lemma MonthAYearOn(y: int, m: int, d: int, d': int)
    requires 1 <= m <= 12
    ensures Gregorian.ToDays(Date(y + 1, m, d')) - Gregorian.ToDays(Date(y, m, d)) >= 364 + d' - d
  {
    hide Gregorian.ToDays, Gregorian.IsLeap, Gregorian.YearStart;
    Gregorian.ToDaysByYear(Date(y, m, d));
    Gregorian.ToDaysByYear(Date(y + 1, m, d'));
    Gregorian.YearLength(y);
  }

  lemma TransitionBounds(z: Zone, y: int)
    requires ZoneOk(z)
    ensures YearBegin(y) - OFFSET_LIMIT < Start(z, y) < YearBegin(y + 1) + 52 * 3600
    ensures YearBegin(y) - OFFSET_LIMIT < End(z, y) < YearBegin(y + 1) + 52 * 3600
    ensures Start(z, y) + 300 * DAY <= Start(z, y + 1) && End(z, y) + 300 * DAY <= End(z, y + 1)
  {
    hide RuleAt, RuleOk, YearBegin;
    RuleBounds(z.start, y);
    RuleBounds(z.end, y);
    RuleGap(z.start, y);
    RuleGap(z.end, y);
  }

  lemma {:induction false} TransitionOrder(z: Zone, i: int, j: int)
    requires ZoneOk(z) && i <= j
    ensures Start(z, i) <= Start(z, j) && End(z, i) <= End(z, j)
    decreases j - i
  {
    hide Start, End;
    if i < j {
      TransitionOrder(z, i, j - 1);
      TransitionBounds(z, j - 1);
    }
  }

  /** The transitions around the calendar year of `st`. */
  lemma NearTransitions(z: Zone, st: int)
    requires ZoneOk(z)
    ensures var y := YearOf(st);
            && Start(z, y - 1) < st + 100 * DAY && End(z, y - 1) < st + 100 * DAY
            && End(z, y - 2) < st && Start(z, y - 2) < st
            && Start(z, y + 2) > st && End(z, y + 2) > st
            && Start(z, y + 1) > st - 100 * DAY && End(z, y + 1) > st - 100 * DAY
  {
    hide Start, End, YearBegin, YearOf;
    var y := YearOf(st);
    YearOfSecond(st);
    YearBeginStep(y - 2);
    YearBeginStep(y - 1);
    YearBeginStep(y);
    YearBeginStep(y + 1);
    TransitionBounds(z, y - 2);
    TransitionBounds(z, y - 1);
    TransitionBounds(z, y + 1);
    TransitionBounds(z, y + 2);
  }

  // ----- get_info covers the time line

  ghost predicate Northern(z: Zone)
    requires ZoneOk(z)
  {
    forall y :: Start(z, y) <= End(z, y)
  }

  ghost predicate Southern(z: Zone)
    requires ZoneOk(z)
  {
    forall y :: End(z, y) < Start(z, y)
  }

  /** The interval of `get_info(st)` holds `st`, and `get_info` is constant on it. */
  ghost predicate SoundAt(z: Zone, st: int)
    requires ZoneOk(z)
  {
    var i := GetInfo(z, st);
    && i.begin <= st < i.end
    && forall t :: i.begin <= t < i.end ==> GetInfo(z, t) == i
  }

  /** Daylight time of a year ends before that of the next begins. */
  ghost predicate YearsApart(z: Zone)
    requires ZoneOk(z)
  {
    forall y :: End(z, y) <= Start(z, y + 1)
  }

  lemma NorthernRuleYear(z: Zone, st: int)
    requires ZoneOk(z) && Northern(z) && YearsApart(z)
    ensures var y := RuleYear(z, st); End(z, y - 1) <= st < Start(z, y + 1)
  {
    hide Start, End, YearOf;
    var y := YearOf(st);
    NearTransitions(z, st);
    assert Start(z, y - 1) <= End(z, y - 1) <= Start(z, y - 1 + 1);
    assert End(z, y) <= Start(z, y + 1);
  }

  /** Any year whose neighbours' transitions lie around `st` gives the information of `st`. */
  lemma NorthernInfo(z: Zone, st: int, y: int)
    requires ZoneOk(z) && Northern(z) && YearsApart(z)
    requires End(z, y - 1) <= st < Start(z, y + 1)
    ensures GetInfo(z, st) == InfoInYear(z, st, y)
  {
    hide Start, End, RuleYear, CeilMinutes, ConstantOffset;
    var r := RuleYear(z, st);
    NorthernRuleYear(z, st);
    assert End(z, y) <= Start(z, y + 1) <= End(z, y + 1);
    assert End(z, r) <= Start(z, r + 1) <= End(z, r + 1);
    if r > y + 1 {
      TransitionOrder(z, y + 1, r - 1);
    } else if r < y - 1 {
      TransitionOrder(z, r + 1, y - 1);
    }
  }

  lemma NorthernSound(z: Zone, st: int)
    requires ZoneOk(z) && Northern(z) && YearsApart(z)
    ensures SoundAt(z, st)
  {
    hide Start, End, RuleYear;
    var y := RuleYear(z, st);
    NorthernRuleYear(z, st);
    NorthernInfo(z, st, y);
    var i := GetInfo(z, st);
    assert Start(z, y - 1) <= End(z, y - 1) <= Start(z, y - 1 + 1);
    assert Start(z, y) <= End(z, y) <= Start(z, y + 1) <= End(z, y + 1);
    forall t | i.begin <= t < i.end ensures GetInfo(z, t) == i {
      NorthernInfo(z, t, y);
    }
  }

  /** When some daylight time reaches past the next one's beginning, two overlapping intervals are
      reported. */
  lemma NorthernOverlap(z: Zone, y: int)
    requires ZoneOk(z) && Northern(z) && End(z, y) > Start(z, y + 1)
    ensures !SoundAt(z, Start(z, y + 1) - 1) || !SoundAt(z, End(z, y))
  {
    hide Start, End, YearOf;
    var a, b := Start(z, y + 1), End(z, y);
    NorthernOverlapYears(z, y);
    TransitionBounds(z, y);
    TransitionBounds(z, y + 1);
    assert Start(z, y) <= End(z, y) && Start(z, y + 1) <= End(z, y + 1);
    assert GetInfo(z, a - 1) == Daylight(z, Start(z, y), b);
    assert GetInfo(z, b) == Daylight(z, a, End(z, y + 1));
    assert SoundAt(z, a - 1) ==> GetInfo(z, b - 1).end == b;
    assert SoundAt(z, b) ==> GetInfo(z, b - 1).end == End(z, y + 1);
  }

  lemma NorthernOverlapYears(z: Zone, y: int)
    requires ZoneOk(z) && Northern(z) && End(z, y) > Start(z, y + 1)
    ensures RuleYear(z, Start(z, y + 1) - 1) == y && RuleYear(z, End(z, y)) == y + 1
  {
    hide Start, End, YearOf, YearBegin;
    var a, b := Start(z, y + 1), End(z, y);
    TransitionBounds(z, y - 1);
    TransitionBounds(z, y);
    TransitionBounds(z, y + 1);
    YearBeginStep(y);
    YearBeginStep(y + 1);
    if a - 1 < YearBegin(y + 1) { YearOfUnique(a - 1, y); } else { YearOfUnique(a - 1, y + 1); }
    if b < YearBegin(y + 1) { YearOfUnique(b, y); } else { YearOfUnique(b, y + 1); }
    NearTransitions(z, a - 1);
    NearTransitions(z, b);
  }

  /** Northern zones: `get_info` is right for all times exactly when the years' daylight times do
      not overlap. */
  lemma NorthernSoundIff(z: Zone)
    requires ZoneOk(z) && Northern(z)
    ensures YearsApart(z) <==> forall st :: SoundAt(z, st)
  {
    hide Start, End, SoundAt;
    if YearsApart(z) {
      forall st ensures SoundAt(z, st) { NorthernSound(z, st); }
    } else {
      var y :| End(z, y) > Start(z, y + 1);
      NorthernOverlap(z, y);
    }
  }

  /** Standard time lies inside its own year of UTC. */
  ghost predicate InOwnYear(z: Zone)
    requires ZoneOk(z)
  {
    forall y :: YearBegin(y) <= End(z, y) && Start(z, y) <= YearBegin(y + 1)
  }

  lemma SouthernRuleYear(z: Zone, st: int)
    requires ZoneOk(z) && Southern(z) && InOwnYear(z)
    ensures RuleYear(z, st) == YearOf(st)
  {
    hide Start, End, YearOf, YearBegin;
    var y := YearOf(st);
    YearOfSecond(st);
    assert YearBegin(y + 1) <= End(z, y + 1) < Start(z, y + 1);
    assert End(z, y - 1) < Start(z, y - 1) <= YearBegin(y - 1 + 1);
  }

  /** The transitions that bound the information of the year's seconds. */
  lemma SouthernYear(z: Zone, y: int)
    requires ZoneOk(z) && Southern(z) && InOwnYear(z)
    ensures Start(z, y - 1) <= YearBegin(y) <= End(z, y) < Start(z, y) <= YearBegin(y + 1) <= End(z, y + 1)
  {
    hide Start, End, YearBegin;
    assert YearBegin(y + 1) <= End(z, y + 1);
    assert Start(z, y - 1) <= YearBegin(y - 1 + 1);
  }

  lemma SouthernInfo(z: Zone, st: int, y: int)
    requires ZoneOk(z) && Southern(z) && InOwnYear(z)
    ensures End(z, y) <= st < Start(z, y) ==> GetInfo(z, st) == Standard(z, End(z, y), Start(z, y))
    ensures Start(z, y) <= st < End(z, y + 1) ==> GetInfo(z, st) == Daylight(z, Start(z, y), End(z, y + 1))
  {
    hide Start, End, YearOf, YearBegin;
    SouthernRuleYear(z, st);
    SouthernYear(z, y);
    SouthernYear(z, y + 1);
    if End(z, y) <= st < YearBegin(y + 1) {
      YearOfUnique(st, y);
    } else if YearBegin(y + 1) <= st < End(z, y + 1) {
      YearOfUnique(st, y + 1);
    }
  }

  lemma SouthernSound(z: Zone, st: int)
    requires ZoneOk(z) && Southern(z) && InOwnYear(z)
    ensures SoundAt(z, st)
  {
    hide Start, End, YearOf, YearBegin, GetInfo;
    var y := YearOf(st);
    YearOfSecond(st);
    SouthernYear(z, y);
    SouthernInfo(z, st, y - 1);
    SouthernInfo(z, st, y);
    var i := GetInfo(z, st);
    forall t | i.begin <= t < i.end ensures GetInfo(z, t) == i {
      SouthernInfo(z, t, y - 1);
      SouthernInfo(z, t, y);
    }
  }

  /** A second in year `y` of UTC, by the transitions of that year. */
  lemma SouthernAt(z: Zone, st: int, y: int)
    requires ZoneOk(z) && Southern(z) && YearBegin(y) <= st < YearBegin(y + 1)
    requires End(z, y - 1) <= st < Start(z, y + 1)
    ensures GetInfo(z, st) == InfoInYear(z, st, y)
  {
    hide Start, End, YearOf, YearBegin, InfoInYear;
    YearOfUnique(st, y);
  }

  /** Standard time that begins before its year does: some second gets an interval that does not hold
      it, or two seconds of one interval get different ones. */
  lemma SouthernEarlyEnd(z: Zone, y: int) returns (st: int)
    requires ZoneOk(z) && Southern(z) && End(z, y + 1) < YearBegin(y + 1)
    ensures !SoundAt(z, st)
  {
    hide Start, End, YearBegin;
    SouthernSpill(z, y);
    if Start(z, y) <= End(z, y + 1) {
      st := End(z, y + 1);
      SouthernAt(z, st, y);
    } else if Start(z, y) < YearBegin(y + 1) {
      st := Start(z, y);
      SouthernAt(z, st, y);
    } else {
      st := Start(z, y);
      SouthernAt(z, st, y + 1);
      SouthernAt(z, YearBegin(y + 1) - 1, y);
      assert GetInfo(z, YearBegin(y + 1) - 1).end == Start(z, y);
    }
  }

  lemma SouthernSpill(z: Zone, y: int)
    requires ZoneOk(z) && Southern(z)
    ensures YearBegin(y) + 300 * DAY < End(z, y + 1) < Start(z, y + 1) && End(z, y) < Start(z, y)
    ensures End(z, y - 1) < Start(z, y) && End(z, y - 1) + 250 * DAY < YearBegin(y + 1)
    ensures End(z, y) + 300 * DAY <= End(z, y + 1) && End(z, y - 1) + 300 * DAY <= End(z, y)
    ensures Start(z, y) + 300 * DAY <= Start(z, y + 1) && Start(z, y + 1) + 300 * DAY <= Start(z, y + 2)
    ensures Start(z, y) + 250 * DAY < YearBegin(y + 2) && YearBegin(y) + 300 * DAY < YearBegin(y + 1)
  {
    hide Start, End, YearBegin;
    TransitionBounds(z, y - 1);
    TransitionBounds(z, y);
    TransitionBounds(z, y + 1);
    YearBeginStep(y);
    YearBeginStep(y + 1);
    assert End(z, y) < Start(z, y) && End(z, y + 1) < Start(z, y + 1);
  }

  /** Standard time that ends after its year does: likewise. */
  lemma SouthernLateStart(z: Zone, y: int) returns (st: int)
    requires ZoneOk(z) && Southern(z) && Start(z, y) > YearBegin(y + 1) && End(z, y + 1) >= YearBegin(y + 1)
    ensures !SoundAt(z, st)
  {
    hide Start, End, YearBegin;
    SouthernSpill(z, y);
    if End(z, y) > YearBegin(y + 1) {
      st := End(z, y);
      SouthernAt(z, st, y + 1);
    } else if End(z, y + 1) > YearBegin(y + 1) {
      st := YearBegin(y + 1);
      SouthernAt(z, st, y + 1);
    } else {
      st := YearBegin(y + 1) - 1;
      SouthernAt(z, st, y);
      SouthernAt(z, YearBegin(y + 1), y + 1);
      assert GetInfo(z, YearBegin(y + 1)).begin == YearBegin(y + 1);
    }
  }

  /** Southern zones: `get_info` is right for all times exactly when the transitions of each year
      stay inside that year of UTC. */
  lemma SouthernSoundIff(z: Zone)
    requires ZoneOk(z) && Southern(z)
    ensures InOwnYear(z) <==> forall st :: SoundAt(z, st)
  {
    hide Start, End, SoundAt, YearBegin;
    if InOwnYear(z) {
      forall st ensures SoundAt(z, st) { SouthernSound(z, st); }
    } else {
      var y :| !(YearBegin(y) <= End(z, y) && Start(z, y) <= YearBegin(y + 1));
      if End(z, y) < YearBegin(y) {
        var st := SouthernEarlyEnd(z, y - 1);
      } else if End(z, y + 1) < YearBegin(y + 1) {
        var st := SouthernEarlyEnd(z, y);
      } else {
        var st := SouthernLateStart(z, y);
      }
    }
  }

  /** The intervals of a sound zone follow one another without gap or overlap. */
  lemma Tiling(z: Zone, st: int)
    requires ZoneOk(z) && forall t :: SoundAt(z, t)
    ensures var i := GetInfo(z, st);
            GetInfo(z, i.end).begin == i.end && GetInfo(z, i.begin - 1).end == i.begin
  {
    hide GetInfo;
    var i := GetInfo(z, st);
    assert SoundAt(z, st) && SoundAt(z, i.end) && SoundAt(z, i.begin - 1);
    assert GetInfo(z, i.end - 1) == i && GetInfo(z, i.begin) == i;
  }

  /** The information of daylight time, its saving in minutes, rounded up. */
  predicate InDaylight(z: Zone, i: Info) {
    i.offset == z.offset + z.save && i.abbrev == z.dst && 60 * (i.save - 1) < z.save <= 60 * i.save
  }

  /** A zone without rules has one information for all times. It holds those from the first second a
      year can have up to the midnight that begins the last day; on that day the assertion at the end
      of `get_info` fails. */
  lemma ConstantZone(z: Zone, s: int, t: int)
    requires z.start.Off? && z.end.Off?
    ensures GetInfo(z, s) == GetInfo(z, t)
    ensures GetInfo(z, s).begin <= s < GetInfo(z, s).end <==> YearBegin(-32767) <= s < YearBegin(32768) - 86400
    ensures var i := GetInfo(z, s);
            if z.std != "" then i.offset == z.offset && i.save == 0 && i.abbrev == z.std else InDaylight(z, i)
  {
    hide Gregorian.ToDays, Gregorian.YearStart;
    Gregorian.ToDaysByYear(Date(-32767, 1, 1));
    Gregorian.NextAddsOne(Date(32767, 12, 31));
    Gregorian.ToDaysByYear(Date(32768, 1, 1));
  }

  lemma MonthRuleRange(y: int, m: int, n: int, wd: int, time: int)
    requires RuleOk(M(m, n, wd, time)) && 3 <= m <= 11
    ensures YearBegin(y) + (59 + 30 * (m - 3)) * DAY <= RuleAt(M(m, n, wd, time), y)
            < YearBegin(y) + (92 + 31 * (m - 3)) * DAY + 25 * 3600
  {
    hide Gregorian.ToDays, Gregorian.YearStart, Gregorian.IsLeap, LastToDays, Weekdays.ToDays;
    var d := MonthRuleDay(y, m, n, wd);
    Gregorian.ToDaysByYear(Date(y, m, d));
    LastDayRange(y, m);
  }

  lemma YearBeginIs()
    ensures forall k :: YearBegin(k) == Gregorian.ToDays(Date(k, 1, 1)) * DAY
  {}
}
