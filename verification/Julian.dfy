/** The Julian calendar of `Include/date/julian.h`. */
module Julian {
  import opened CalendarDate
  import opened CppArith

  predicate IsLeap(y: int) {
    TruncMod(y, 4) == 0
  }

  function LastDay(y: int, m: int): int
    requires 1 <= m <= 12
  {
    if m != 2 || !IsLeap(y) then [31, 28, 31, 30, 31, 30, 31, 31, 30, 31, 30, 31][m - 1] else 29
  }

  predicate Valid(x: Date) {
    1 <= x.month <= 12 && 1 <= x.day <= LastDay(x.year, x.month)
  }

  function ToDays(x: Date): int {
    var y := x.year - (if x.month <= 2 then 1 else 0);
    var era := TruncDiv(if y >= 0 then y else y - 3, 4);
    var yoe := y - era * 4;
    var doy := (153 * (if x.month > 2 then x.month - 3 else x.month + 9) + 2) / 5 + x.day - 1;
    var doe := yoe * 365 + doy;
    era * 1461 + doe - 719470
  }

  function FromDays(dp: int): Date {
    var z := dp + 719470;
    var era := TruncDiv(if z >= 0 then z else z - 1460, 1461);
    FromEraDay(era, z - era * 1461)
  }

  function FromEraDay(era: int, doe: int): Date {
    var yoe := (doe - doe / 1460) / 365;
    FromMarch(yoe + era * 4, doe - 365 * yoe)
  }

  /** The date of day `doy` of the shifted year that begins in March of year `y`. */
  function FromMarch(y: int, doy: int): Date {
    var mp := (5 * doy + 2) / 153;
    var d := doy - (153 * mp + 2) / 5 + 1;
    var m := if mp < 10 then mp + 3 else mp - 9;
    Date(y + (if m <= 2 then 1 else 0), m, d)
  }

  function Next(x: Date): Date
    requires 1 <= x.month <= 12
  {
    if x.day < LastDay(x.year, x.month) then Date(x.year, x.month, x.day + 1)
    else if x.month < 12 then Date(x.year, x.month + 1, 1)
    else Date(x.year + 1, 1, 1)
  }

  /** The day number as a sum, with the month starts tabled from March. */
  function CivilDays(x: Date): int
    requires 1 <= x.month <= 12
  {
    var y := if x.month <= 2 then x.year - 1 else x.year;
    365 * y + y / 4 + [306, 337, 0, 31, 61, 92, 122, 153, 184, 214, 245, 275][x.month - 1] + x.day - 719471
  }

  lemma ToDaysIsCivilDays(x: Date)
    requires 1 <= x.month <= 12
    ensures ToDays(x) == CivilDays(x)
  {
    EraIsFloor(if x.month <= 2 then x.year - 1 else x.year, 4);
  }

  lemma EraOfDay(dp: int, era: int, doe: int)
    requires 0 <= doe < 1461 && dp + 719470 == era * 1461 + doe
    ensures FromDays(dp) == FromEraDay(era, doe)
  {
    hide FromEraDay;
    EraIsFloor(dp + 719470, 1461);
    DivUnique(dp + 719470, 1461, era);
  }

  lemma MarchMonth(doy: int)
    requires 0 <= doy < 366
    ensures var mp := (5 * doy + 2) / 153;
            var m := if mp < 10 then mp + 3 else mp - 9;
            && 0 <= mp < 12
            && (153 * mp + 2) / 5 == [306, 337, 0, 31, 61, 92, 122, 153, 184, 214, 245, 275][m - 1]
            && 1 <= doy - (153 * mp + 2) / 5 + 1 <= [31, 29, 31, 30, 31, 30, 31, 31, 30, 31, 30, 31][m - 1]
            && (m == 2 && doy - (153 * mp + 2) / 5 + 1 == 29 ==> doy == 365)
  {
    var mp := (5 * doy + 2) / 153;
    if
    case mp == 0 => case mp == 1 => case mp == 2 => case mp == 3 => case mp == 4 => case mp == 5 =>
    case mp == 6 => case mp == 7 => case mp == 8 => case mp == 9 => case mp == 10 => case mp == 11 =>
  }

  lemma FromMarchValid(y: int, doy: int)
    requires 0 <= doy < 366 && (doy == 365 ==> IsLeap(y + 1))
    ensures Valid(FromMarch(y, doy)) && CivilDays(FromMarch(y, doy)) == 365 * y + y / 4 + doy - 719470
  {
    hide IsLeap;
    MarchMonth(doy);
  }

  lemma EraDayValid(era: int, doe: int)
    requires 0 <= doe < 1461
    ensures Valid(FromEraDay(era, doe)) && CivilDays(FromEraDay(era, doe)) == era * 1461 + doe - 719470
  {
    hide FromMarch, CivilDays, Valid;
    var yoe := (doe - doe / 1460) / 365;
    var doy := doe - 365 * yoe;
    assert 0 <= yoe < 4 && 0 <= doy < 366 && (doy == 365 ==> yoe == 3);
    DivUnique(yoe + era * 4, 4, era);
    FromMarchValid(yoe + era * 4, doy);
  }

  lemma ToDaysOfFromDays(dp: int)
    ensures Valid(FromDays(dp)) && ToDays(FromDays(dp)) == dp
  {
    hide FromDays, FromEraDay, ToDays, CivilDays;
    var era, doe := (dp + 719470) / 1461, (dp + 719470) % 1461;
    EraOfDay(dp, era, doe);
    EraDayValid(era, doe);
    ToDaysIsCivilDays(FromDays(dp));
  }

  lemma NextAddsOne(x: Date)
    requires Valid(x)
    ensures Valid(Next(x)) && ToDays(Next(x)) == ToDays(x) + 1
  {
    hide ToDays;
    ToDaysIsCivilDays(x);
    ToDaysIsCivilDays(Next(x));
  }

  lemma LessImpliesFewerDays(a: Date, b: Date)
    requires Valid(a) && Valid(b) && Less(a, b)
    ensures ToDays(a) < ToDays(b)
  {
    hide ToDays;
    ToDaysIsCivilDays(a);
    ToDaysIsCivilDays(b);
  }

  lemma OrderPreserved(a: Date, b: Date)
    requires Valid(a) && Valid(b)
    ensures Less(a, b) <==> ToDays(a) < ToDays(b)
  {
    hide ToDays, Valid;
    if Less(a, b) {
      LessImpliesFewerDays(a, b);
    } else if Less(b, a) {
      LessImpliesFewerDays(b, a);
    }
  }

  lemma FromDaysOfToDays(x: Date)
    requires Valid(x)
    ensures FromDays(ToDays(x)) == x
  {
    hide FromDays, ToDays, Valid;
    var y := FromDays(ToDays(x));
    ToDaysOfFromDays(ToDays(x));
    if Less(x, y) {
      LessImpliesFewerDays(x, y);
    } else if Less(y, x) {
      LessImpliesFewerDays(y, x);
    }
  }

  /** 1970-01-01 of the Gregorian calendar is 19 December 1969 of this one. */
  lemma Anchor()
    ensures ToDays(Date(1969, 12, 19)) == 0
  {}
}
