/** The tabular Islamic calendar of `Include/date/islamic.h`: 30-year eras of 10631 days. */
module Islamic {
  import opened CalendarDate
  import opened CppArith

  function YearOfEra(y: int): int {
    y - TruncDiv(if y >= 0 then y else y - 29, 30) * 30
  }

  predicate IsLeap(year: int) {
    YearOfEra(year - 1) in {1, 4, 6, 9, 12, 15, 17, 20, 23, 25, 28}
  }

  function LastDay(y: int, m: int): int
    requires 1 <= m <= 12
  {
    if m != 12 || !IsLeap(y) then [30, 29, 30, 29, 30, 29, 30, 29, 30, 29, 30, 29][m - 1] else 30
  }

  predicate Valid(x: Date) {
    1 <= x.month <= 12 && 1 <= x.day <= LastDay(x.year, x.month)
  }

  /** Days of the era before year `yoe` of it. */
  function EraYearStart(yoe: int): int {
    yoe * 354 + (11 * (yoe + 1) + 3) / 30
  }

  function ToDays(x: Date): int {
    var y := x.year - 1;
    var era := TruncDiv(if y >= 0 then y else y - 29, 30);
    var yoe := y - era * 30;
    var doy := 29 * (x.month - 1) + x.month / 2 + x.day - 1;
    var doe := EraYearStart(yoe) + doy;
    era * 10631 + doe - 492148
  }

  function FromDays(dp: int): Date {
    var z := dp + 492148;
    var era := TruncDiv(if z >= 0 then z else z - 10630, 10631);
    FromEraDay(era, z - era * 10631)
  }

  function FromEraDay(era: int, doe: int): Date {
    var yoe := (30 * doe + 10646) / 10631 - 1;
    FromYearDay(yoe + era * 30 + 1, doe - EraYearStart(yoe))
  }

  function FromYearDay(y: int, doy: int): Date {
    var m := (11 * doy + 330) / 325;
    Date(y, m, doy - (29 * (m - 1) + m / 2) + 1)
  }

  function Next(x: Date): Date
    requires 1 <= x.month <= 12
  {
    if x.day < LastDay(x.year, x.month) then Date(x.year, x.month, x.day + 1)
    else if x.month < 12 then Date(x.year, x.month + 1, 1)
    else Date(x.year + 1, 1, 1)
  }

  /** The hard-coded leap years are exactly the jumps of the year-start formula. */
  lemma LeapTableIsJumps(yoe: int)
    requires 0 <= yoe < 30
    ensures EraYearStart(yoe + 1) - EraYearStart(yoe) == (if yoe in {1, 4, 6, 9, 12, 15, 17, 20, 23, 25, 28} then 355 else 354)
    ensures EraYearStart(0) == 0 && EraYearStart(30) == 10631
  {}

  /** `(30*doe+10646)/10631-1` is the exact inverse of the year-start formula. */
  lemma YearFormulaInverse(doe: int, yoe: int)
    requires 0 <= yoe < 30
    ensures (30 * doe + 10646) / 10631 - 1 == yoe <==> EraYearStart(yoe) <= doe < EraYearStart(yoe + 1)
  {}

  function MonthStart(m: int): int {
    29 * (m - 1) + m / 2
  }

  lemma YearDayValid(y: int, doy: int)
    requires 0 <= doy < (if IsLeap(y) then 355 else 354)
    ensures var x := FromYearDay(y, doy);
            Valid(x) && x.year == y && MonthStart(x.month) + x.day - 1 == doy
  {
    hide IsLeap;
    var m := (11 * doy + 330) / 325;
    if
    case m == 1 => case m == 2 => case m == 3 => case m == 4 => case m == 5 => case m == 6 =>
    case m == 7 => case m == 8 => case m == 9 => case m == 10 => case m == 11 => case m == 12 =>
  }

  function YearStart(y: int): int {
    (y - 1) / 30 * 10631 + EraYearStart((y - 1) % 30) - 492148
  }

  lemma EraParts(y: int)
    ensures YearOfEra(y - 1) == (y - 1) % 30
    ensures forall m, d :: ToDays(Date(y, m, d)) == YearStart(y) + MonthStart(m) + d - 1
  {
    EraIsFloor(y - 1, 30);
  }

  lemma YearLength(y: int)
    ensures YearStart(y + 1) - YearStart(y) == (if IsLeap(y) then 355 else 354)
  {
    hide EraYearStart, ToDays, YearOfEra;
    var era, yoe := (y - 1) / 30, (y - 1) % 30;
    EraParts(y);
    LeapTableIsJumps(yoe);
    if yoe == 29 {
      LeapTableIsJumps(0);
      ModUnique(y, 30, era + 1, 0);
    } else {
      ModUnique(y, 30, era, yoe + 1);
    }
  }

  lemma {:induction false} YearOrder(y: int, z: int)
    requires y <= z
    ensures YearStart(y) + 354 * (z - y) <= YearStart(z)
    decreases z - y
  {
    hide YearStart, IsLeap;
    if y < z {
      YearOrder(y, z - 1);
      YearLength(z - 1);
    }
  }

  lemma EraOfDay(dp: int, era: int, doe: int)
    requires 0 <= doe < 10631 && dp + 492148 == era * 10631 + doe
    ensures FromDays(dp) == FromEraDay(era, doe)
  {
    hide FromEraDay;
    EraIsFloor(dp + 492148, 10631);
    DivUnique(dp + 492148, 10631, era);
  }

  lemma Split(dp: int) returns (y: int, doy: int)
    ensures dp == YearStart(y) + doy && 0 <= doy < (if IsLeap(y) then 355 else 354)
    ensures FromDays(dp) == FromYearDay(y, doy)
  {
    hide EraYearStart, IsLeap, FromYearDay, FromDays, ToDays;
    var era, doe := (dp + 492148) / 10631, (dp + 492148) % 10631;
    EraOfDay(dp, era, doe);
    var yoe := YearOfEraDay(doe);
    y, doy := yoe + era * 30 + 1, doe - EraYearStart(yoe);
    ModUnique(y - 1, 30, era, yoe);
    hide YearStart;
    YearLength(y);
    LeapTableIsJumps(yoe);
    EraParts(y);
  }

  lemma YearOfEraDay(doe: int) returns (yoe: int)
    requires 0 <= doe < 10631
    ensures yoe == (30 * doe + 10646) / 10631 - 1 && 0 <= yoe < 30
    ensures EraYearStart(yoe) <= doe < EraYearStart(yoe + 1)
  {
    hide EraYearStart;
    yoe := (30 * doe + 10646) / 10631 - 1;
    LeapTableIsJumps(0);
    YearFormulaInverse(doe, yoe);
  }

  lemma ToDaysOfFromDays(dp: int)
    ensures Valid(FromDays(dp)) && ToDays(FromDays(dp)) == dp
  {
    hide FromDays, FromYearDay, ToDays, YearStart, IsLeap;
    var y, doy := Split(dp);
    YearDayValid(y, doy);
    EraParts(y);
    var x := FromDays(dp);
    assert x == Date(x.year, x.month, x.day);
  }

  lemma ToDaysByYear(x: Date)
    ensures ToDays(x) == YearStart(x.year) + MonthStart(x.month) + x.day - 1
  {
    hide ToDays, YearStart, MonthStart;
    EraParts(x.year);
    assert x == Date(x.year, x.month, x.day);
  }

  lemma NextAddsOne(x: Date)
    requires Valid(x)
    ensures Valid(Next(x)) && ToDays(Next(x)) == ToDays(x) + 1
  {
    hide ToDays, IsLeap, YearStart;
    ToDaysByYear(x);
    ToDaysByYear(Next(x));
    YearLength(x.year);
  }

  lemma LessImpliesFewerDays(a: Date, b: Date)
    requires Valid(a) && Valid(b) && Less(a, b)
    ensures ToDays(a) < ToDays(b)
  {
    hide ToDays, IsLeap, YearStart;
    ToDaysByYear(a);
    ToDaysByYear(b);
    YearLength(a.year);
    if a.year < b.year {
      YearOrder(a.year + 1, b.year);
    }
  }

  lemma OrderPreserved(a: Date, b: Date)
    requires Valid(a) && Valid(b)
    ensures Less(a, b) <==> ToDays(a) < ToDays(b)
  {
    hide ToDays, Valid;
    if Less(a, b) {
      LessImpliesFewerDays(a, b);
    } else if Less(b, a) {
      LessImpliesFewerDays(b, a);
    }
  }

  lemma FromDaysOfToDays(x: Date)
    requires Valid(x)
    ensures FromDays(ToDays(x)) == x
  {
    hide FromDays, ToDays, Valid;
    var y := FromDays(ToDays(x));
    ToDaysOfFromDays(ToDays(x));
    if Less(x, y) {
      LessImpliesFewerDays(x, y);
    } else if Less(y, x) {
      LessImpliesFewerDays(y, x);
    }
  }

  /** 1 Muharram 1390 is 1970-03-09 of the Gregorian calendar, day 67. */
  lemma Anchor()
    ensures ToDays(Date(1390, 1, 1)) == 67
  {}
}
