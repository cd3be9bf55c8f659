/** The proleptic Gregorian calendar of `Include/date/date.h`. */
module Gregorian {
  import opened CalendarDate
  import opened CppArith

  predicate IsLeap(y: int) {
    TruncMod(y, 4) == 0 && (TruncMod(y, 100) != 0 || TruncMod(y, 400) == 0)
  }

  function LastDay(y: int, m: int): (d: int)
  {
    if (m != 2 || !IsLeap(y)) && 1 <= m <= 12
    then [31, 28, 31, 30, 31, 30, 31, 31, 30, 31, 30, 31][m - 1]
    else 29
  }

  predicate Valid(x: Date) {
    1 <= x.month <= 12 && 1 <= x.day <= LastDay(x.year, x.month)
  }

  function ToDays(x: Date): int {
    var y := x.year - (if x.month <= 2 then 1 else 0);
    var era := TruncDiv(if y >= 0 then y else y - 399, 400);
    var yoe := y - era * 400;
    var doy := (153 * (if x.month > 2 then x.month - 3 else x.month + 9) + 2) / 5 + x.day - 1;
    var doe := yoe * 365 + yoe / 4 - yoe / 100 + doy;
    era * 146097 + doe - 719468
  }

  function FromDays(dp: int): Date {
    var z := dp + 719468;
    var era := TruncDiv(if z >= 0 then z else z - 146096, 146097);
    FromEraDay(era, z - era * 146097)
  }

  function FromEraDay(era: int, doe: int): Date {
    var yoe := (doe - doe / 1460 + doe / 36524 - doe / 146096) / 365;
    FromMarch(yoe + era * 400, doe - (365 * yoe + yoe / 4 - yoe / 100))
  }

  /** The date of day `doy` of the shifted year that begins in March of year `y`. */
  function FromMarch(y: int, doy: int): Date {
    var mp := (5 * doy + 2) / 153;
    var d := doy - (153 * mp + 2) / 5 + 1;
    var m := if mp < 10 then mp + 3 else mp - 9;
    Date(y + (if m <= 2 then 1 else 0), m, d)
  }

  /** The day after `x`, told from the month lengths alone. */
  function Next(x: Date): Date {
    if x.day < LastDay(x.year, x.month) then Date(x.year, x.month, x.day + 1)
    else if x.month < 12 then Date(x.year, x.month + 1, 1)
    else Date(x.year + 1, 1, 1)
  }

  // ----- the formulas, taken apart

  /** Days before year `y` of the era-shifted calendar, whose years begin on 1 March. */
  function MarchYearStart(y: int): int {
    365 * y + y / 4 - y / 100 + y / 400
  }

  lemma LeapIsFloorLeap(y: int)
    ensures IsLeap(y) <==> y % 4 == 0 && (y % 100 != 0 || y % 400 == 0)
  {}

  lemma MarchYearLength(y: int)
    ensures MarchYearStart(y + 1) - MarchYearStart(y) == (if IsLeap(y + 1) then 366 else 365)
  {
    hide IsLeap;
    LeapIsFloorLeap(y + 1);
    DivSucc(y, 4);
    DivSucc(y, 100);
    DivSucc(y, 400);
    if (y + 1) % 100 == 0 {
      ModUnique(y + 1, 4, 25 * ((y + 1) / 100), 0);
    }
    if (y + 1) % 400 == 0 {
      ModUnique(y + 1, 100, 4 * ((y + 1) / 400), 0);
    }
  }

  /** The day number as a sum over the shifted year, with the month starts tabled. */
  function CivilDays(x: Date): int
    requires 1 <= x.month <= 12
  {
    MarchYearStart(if x.month <= 2 then x.year - 1 else x.year)
    + [306, 337, 0, 31, 61, 92, 122, 153, 184, 214, 245, 275][x.month - 1] + x.day - 719469
  }

  lemma ToDaysIsCivilDays(x: Date)
    requires 1 <= x.month <= 12
    ensures ToDays(x) == CivilDays(x)
  {
    hide TruncDiv;
    var y := if x.month <= 2 then x.year - 1 else x.year;
    EraIsFloor(y, 400);
    var era := y / 400;
    var yoe := y - era * 400;
    DivUnique(y, 4, era * 100 + yoe / 4);
    DivUnique(y, 100, era * 4 + yoe / 100);
  }

  /** The `doe/1460 - doe/36524 + doe/146096` correction finds the year of the era: with the
      era's day split into centuries `c`, four-year groups `b`, years `r` and days `k`. */
  lemma YearOfEra(c: int, b: int, r: int, k: int)
    requires 0 <= c < 4 && 0 <= b < 25 && 0 <= r < 4
    requires 0 <= k < (if r == 3 && (b < 24 || c == 3) then 366 else 365)
    ensures var doe := 36524 * c + 1461 * b + 365 * r + k;
            (doe - doe / 1460 + doe / 36524 - doe / 146096) / 365 == 100 * c + 4 * b + r
  {
    var doe := 36524 * c + 1461 * b + 365 * r + k;
    var last := if doe == 146096 then 1 else 0;
    var carry := if 24 * c + b + 365 * r + k >= 1460 then 1 else 0;
    assert doe / 36524 == c + last by { DivUnique(doe, 36524, c + last); }
    assert doe / 146096 == last by { DivUnique(doe, 146096, last); }
    assert doe / 1460 == 25 * c + b + carry by { DivUnique(doe, 1460, 25 * c + b + carry); }
    DivUnique(doe - doe / 1460 + doe / 36524 - doe / 146096, 365, 100 * c + 4 * b + r);
  }

  lemma MarchMonth(doy: int)
    requires 0 <= doy < 366
    ensures var mp := (5 * doy + 2) / 153;
            var m := if mp < 10 then mp + 3 else mp - 9;
            && 0 <= mp < 12
            && 1 <= doy - (153 * mp + 2) / 5 + 1 <= (if m == 2 then 29 else LastDay(1, m))
  {
    var mp := (5 * doy + 2) / 153;
    if
    case mp == 0 => case mp == 1 => case mp == 2 => case mp == 3 => case mp == 4 => case mp == 5 =>
    case mp == 6 => case mp == 7 => case mp == 8 => case mp == 9 => case mp == 10 => case mp == 11 =>
  }

  lemma MarchYearStartParts(era: int, c: int, b: int, r: int)
    requires 0 <= c < 4 && 0 <= b < 25 && 0 <= r < 4
    ensures MarchYearStart(400 * era + 100 * c + 4 * b + r) == 146097 * era + 36524 * c + 1461 * b + 365 * r
  {
    var y := 400 * era + 100 * c + 4 * b + r;
    DivUnique(y, 400, era);
    DivUnique(y, 100, 4 * era + c);
    DivUnique(y, 4, 100 * era + 25 * c + b);
  }

  lemma EraParts(doe: int) returns (c: int, b: int, r: int, k: int)
    requires 0 <= doe < 146097
    ensures 0 <= c < 4 && 0 <= b < 25 && 0 <= r < 4
    ensures 0 <= k < (if r == 3 && (b < 24 || c == 3) then 366 else 365)
    ensures doe == 36524 * c + 1461 * b + 365 * r + k
  {
    c := if doe / 36524 == 4 then 3 else doe / 36524;
    var rc := doe - 36524 * c;
    b := rc / 1461;
    var rb := rc - 1461 * b;
    r := if rb / 365 == 4 then 3 else rb / 365;
    k := rb - 365 * r;
  }

  lemma LeapParts(era: int, c: int, b: int, r: int)
    requires 0 <= c < 4 && 0 <= b < 25 && 0 <= r < 4
    ensures IsLeap(400 * era + 100 * c + 4 * b + r + 1) <==> r == 3 && (b < 24 || c == 3)
  {
    var y := 400 * era + 100 * c + 4 * b + r + 1;
    LeapIsFloorLeap(y);
    if r < 3 {
      ModUnique(y, 4, 100 * era + 25 * c + b, r + 1);
    } else if b < 24 {
      ModUnique(y, 4, 100 * era + 25 * c + b + 1, 0);
      ModUnique(y, 100, 4 * era + c, 4 * b + 4);
    } else if c < 3 {
      ModUnique(y, 100, 4 * era + c + 1, 0);
      ModUnique(y, 400, era, 100 * c + 100);
    } else {
      ModUnique(y, 4, 100 * era + 100, 0);
      ModUnique(y, 400, era + 1, 0);
    }
  }

  lemma EraOfDay(dp: int, era: int, doe: int)
    requires 0 <= doe < 146097 && dp + 719468 == era * 146097 + doe
    ensures FromDays(dp) == FromEraDay(era, doe)
  {
    hide FromEraDay, TruncDiv;
    EraIsFloor(dp + 719468, 146097);
    DivUnique(dp + 719468, 146097, era);
  }

  lemma FromEraDaySteps(era: int, doe: int, yoe: int, k: int)
    requires (doe - doe / 1460 + doe / 36524 - doe / 146096) / 365 == yoe
    requires doe == 365 * yoe + yoe / 4 - yoe / 100 + k
    ensures FromEraDay(era, doe) == FromMarch(yoe + era * 400, k)
  {}

  lemma EraDayDate(era: int, c: int, b: int, r: int, k: int)
    requires 0 <= c < 4 && 0 <= b < 25 && 0 <= r < 4
    requires 0 <= k < (if r == 3 && (b < 24 || c == 3) then 366 else 365)
    ensures FromEraDay(era, 36524 * c + 1461 * b + 365 * r + k) == FromMarch(400 * era + 100 * c + 4 * b + r, k)
  {
    hide FromEraDay, FromMarch;
    var yoe := 100 * c + 4 * b + r;
    assert yoe / 100 == c && yoe / 4 == 25 * c + b by {
      DivUnique(yoe, 100, c);
      DivUnique(yoe, 4, 25 * c + b);
    }
    YearOfEra(c, b, r, k);
    FromEraDaySteps(era, 36524 * c + 1461 * b + 365 * r + k, yoe, k);
  }

  /** Any day splits into an era-shifted year and a day of that year. */
  lemma Split(dp: int) returns (y: int, doy: int)
    ensures dp + 719468 == MarchYearStart(y) + doy
    ensures 0 <= doy < (if IsLeap(y + 1) then 366 else 365)
    ensures FromDays(dp) == FromMarch(y, doy)
  {
    hide FromDays, FromEraDay, FromMarch, IsLeap, MarchYearStart;
    var era := (dp + 719468) / 146097;
    var doe := (dp + 719468) - era * 146097;
    var c, b, r, k := EraParts(doe);
    EraOfDay(dp, era, doe);
    EraDayDate(era, c, b, r, k);
    MarchYearStartParts(era, c, b, r);
    LeapParts(era, c, b, r);
    y, doy := 400 * era + 100 * c + 4 * b + r, k;
  }

  // ----- the two conversions are mutually inverse and order preserving

  lemma FromMarchValid(y: int, doy: int)
    requires 0 <= doy < (if IsLeap(y + 1) then 366 else 365)
    ensures Valid(FromMarch(y, doy))
  {
    MarchMonth(doy);
  }

  lemma FromMarchToDays(y: int, doy: int)
    requires 0 <= doy < 366
    ensures ToDays(FromMarch(y, doy)) == MarchYearStart(y) + doy - 719468
  {
    hide ToDays;
    MarchMonth(doy);
    ToDaysIsCivilDays(FromMarch(y, doy));
  }

  lemma ToDaysOfFromDays(dp: int)
    ensures Valid(FromDays(dp)) && ToDays(FromDays(dp)) == dp
  {
    hide FromDays, FromMarch, ToDays, IsLeap, Valid;
    var y, doy := Split(dp);
    FromMarchValid(y, doy);
    FromMarchToDays(y, doy);
  }

  lemma NextCivil(x: Date)
    requires Valid(x)
    ensures Valid(Next(x)) && CivilDays(Next(x)) == CivilDays(x) + 1
  {
    hide IsLeap, MarchYearStart;
    MarchYearLength(x.year - 1);
  }

  lemma NextAddsOne(x: Date)
    requires Valid(x)
    ensures Valid(Next(x)) && ToDays(Next(x)) == ToDays(x) + 1
  {
    hide ToDays, CivilDays, LastDay, IsLeap;
    NextCivil(x);
    ToDaysIsCivilDays(x);
    ToDaysIsCivilDays(Next(x));
  }

  /** The day number of 1 January. */
  function YearStart(y: int): int {
    ToDays(Date(y, 1, 1))
  }

  lemma YearLength(y: int)
    ensures YearStart(y + 1) == YearStart(y) + (if IsLeap(y) then 366 else 365)
  {
    hide ToDays, IsLeap;
    ToDaysIsCivilDays(Date(y, 1, 1));
    ToDaysIsCivilDays(Date(y + 1, 1, 1));
    MarchYearLength(y - 1);
  }

  lemma {:induction false} YearStartOrder(y: int, z: int)
    requires y <= z
    ensures YearStart(y) + 365 * (z - y) <= YearStart(z) <= YearStart(y) + 366 * (z - y)
    decreases z - y
  {
    hide IsLeap, YearStart;
    if y < z {
      YearStartOrder(y, z - 1);
      YearLength(z - 1);
    }
  }

  /** Days since 1 January. */
  function DayOfYear(x: Date): int
    requires 1 <= x.month <= 12
  {
    [0, 31, 59, 90, 120, 151, 181, 212, 243, 273, 304, 334][x.month - 1]
    + (if x.month > 2 && IsLeap(x.year) then 1 else 0) + x.day - 1
  }

  lemma ToDaysByYear(x: Date)
    requires 1 <= x.month <= 12
    ensures ToDays(x) == YearStart(x.year) + DayOfYear(x)
  {
    hide ToDays, IsLeap;
    ToDaysIsCivilDays(x);
    ToDaysIsCivilDays(Date(x.year, 1, 1));
    MarchYearLength(x.year - 1);
  }

  lemma DayOfYearRange(x: Date)
    requires Valid(x)
    ensures 0 <= DayOfYear(x) < (if IsLeap(x.year) then 366 else 365)
  {}

  lemma InYear(x: Date)
    requires Valid(x)
    ensures YearStart(x.year) <= ToDays(x) < YearStart(x.year + 1)
  {
    hide YearStart, ToDays, DayOfYear, IsLeap;
    YearLength(x.year);
    ToDaysByYear(x);
    DayOfYearRange(x);
  }

  lemma DayOfYearOrder(a: Date, b: Date)
    requires Valid(a) && Valid(b) && a.year == b.year && Less(a, b)
    ensures DayOfYear(a) < DayOfYear(b)
  {}

  /** The conversion keeps the order of the dates, in both directions. */
  lemma OrderPreserved(a: Date, b: Date)
    requires Valid(a) && Valid(b)
    ensures Less(a, b) <==> ToDays(a) < ToDays(b)
  {
    hide ToDays;
    if Less(a, b) {
      LessImpliesFewerDays(a, b);
    } else if Less(b, a) {
      LessImpliesFewerDays(b, a);
    }
  }

  lemma LessImpliesFewerDays(a: Date, b: Date)
    requires Valid(a) && Valid(b) && Less(a, b)
    ensures ToDays(a) < ToDays(b)
  {
    hide ToDays, YearStart, DayOfYear;
    if a.year == b.year {
      ToDaysByYear(a);
      ToDaysByYear(b);
      DayOfYearOrder(a, b);
    } else {
      InYear(a);
      InYear(b);
      YearStartOrder(a.year + 1, b.year);
    }
  }

  lemma FromDaysOfToDays(x: Date)
    requires Valid(x)
    ensures FromDays(ToDays(x)) == x
  {
    hide FromDays, ToDays, Valid;
    var y := FromDays(ToDays(x));
    ToDaysOfFromDays(ToDays(x));
    OrderPreserved(x, y);
    OrderPreserved(y, x);
  }

  /** `n` applications of `Next`: the calendar told by counting days one at a time. */
  function Count(x: Date, n: nat): Date {
    if n == 0 then x else Next(Count(x, n - 1))
  }

  lemma {:induction false} CountAddsDays(x: Date, n: nat)
    requires Valid(x)
    ensures Valid(Count(x, n)) && ToDays(Count(x, n)) == ToDays(x) + n
  {
    hide ToDays, Next, Valid;
    if n > 0 {
      CountAddsDays(x, n - 1);
      NextAddsOne(Count(x, n - 1));
    }
  }

  lemma Epoch()
    ensures ToDays(Date(1970, 1, 1)) == 0
  {}

  /** Counting `n` days on from any date arrives at the date `FromDays` computes. */
  lemma CountIsFromDays(x: Date, n: nat)
    requires Valid(x)
    ensures FromDays(ToDays(x) + n) == Count(x, n)
  {
    hide FromDays, ToDays;
    CountAddsDays(x, n);
    FromDaysOfToDays(Count(x, n));
  }

  lemma YearOfDay(dp: int)
    ensures var y := FromDays(dp).year; YearStart(y) <= dp < YearStart(y + 1)
  {
    hide FromDays, YearStart, ToDays, Valid;
    ToDaysOfFromDays(dp);
    InYear(FromDays(dp));
  }

  lemma YearIsUnique(dp: int, y: int, z: int)
    requires YearStart(y) <= dp < YearStart(y + 1) && YearStart(z) <= dp < YearStart(z + 1)
    ensures y == z
  {
    hide YearStart;
    if y < z {
      YearStartOrder(y + 1, z);
    } else if z < y {
      YearStartOrder(z + 1, y);
    }
  }
}
