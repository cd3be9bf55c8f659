/** The Solar Hijri calendar of `Include/date/solar_hijri.h`: 2820-year eras of 22 periods of
    128 years and a tail of 4, each period one cycle of 29 years and three of 33. The source
    mixes `int` and `unsigned`, so intermediate results wrap; the wraps are kept here. */
module SolarHijri {
  import opened CalendarDate
  import opened CppArith

  const EPOCH := 2121446
  const DAYS_IN_ERA := 1029983
  const YEARS_IN_ERA := 2820
  const UNIX_TIME_SHIFT := 2440588
  const DAYS_IN_FIRST_CYCLE := 10592
  const DAYS_IN_OTHER_CYCLES := 12053
  const DAYS_IN_PERIOD := 46751

  /** The years a `short` holds. */
  predicate ShortYear(y: int) {
    -0x8000 <= y < 0x8000
  }

  function I16(x: int): int {
    (x + 0x8000) % 0x1_0000 - 0x8000
  }

  function EraOfYear(y: int): int {
    TruncDiv(I32(if y >= 0 then y else U32(U32(y - YEARS_IN_ERA) + 1)), YEARS_IN_ERA)
  }

  predicate IsLeap(year: int) {
    var y := year - 475;
    IsLongYearOfEra(U32(y - U32(EraOfYear(y) * YEARS_IN_ERA)))
  }

  predicate IsLongYearOfEra(yoe: nat) {
    var yoc := if yoe < 22 * 128
               then (if yoe % 128 < 29 then yoe % 128 else (yoe % 128 - 29) % 33)
               else U32(yoe - 22 * 128 + 33);
    yoc != 0 && yoc % 4 == 0
  }

  function LastDay(y: int, m: int): int
    requires 1 <= m <= 12
  {
    if m != 12 || !IsLeap(y) then [31, 31, 31, 31, 31, 31, 30, 30, 30, 30, 30, 29][m - 1] else 30
  }

  predicate Valid(x: Date) {
    1 <= x.month <= 12 && 1 <= x.day <= LastDay(x.year, x.month)
  }

  function ToDays(x: Date): int {
    var y := x.year - 475;
    var era := EraOfYear(y);
    var fdoe := I32(EPOCH + U32(era * DAYS_IN_ERA));
    var yoe := I32(U32(y - U32(era * YEARS_IN_ERA)));
    var doy := U32(30 * (x.month - 1) + (if x.month > 6 then 6 else x.month - 1) + x.day - 1);
    var doe := U32(fdoe + FirstDayOfYear(yoe) + doy);
    I32(doe - UNIX_TIME_SHIFT)
  }

  /** Days of the era before year `yoe` of it. */
  function FirstDayOfYear(yoe: int): int {
    var period := U32(TruncDiv(yoe, 128));
    U32(U32(period * DAYS_IN_PERIOD) + FirstDayOfPeriodYear(TruncMod(yoe, 128)))
  }

  function FirstDayOfPeriodYear(yop: int): int {
    var cycle := if yop < 29 then 0 else U32(TruncDiv(yop - 29, 33) + 1);
    var yoc := if yop < 29 then yop else TruncMod(yop - 29, 33);
    var fdoc := if cycle > 0 then U32(DAYS_IN_FIRST_CYCLE + (cycle - 1) * DAYS_IN_OTHER_CYCLES) else 0;
    U32(fdoc + FirstDayOfCycleYear(yoc))
  }

  function FirstDayOfCycleYear(yoc: int): int {
    var group := if yoc < 1 then 0 else U32(TruncDiv(yoc - 1, 4));
    var yog := if yoc < 1 then -1 else TruncMod(yoc - 1, 4);
    U32(group * 1461 + U32((yog + 1) * 365))
  }

  function FromDays(dp: int): Date {
    var z := U32(dp + UNIX_TIME_SHIFT);
    var delta := I32(z - EPOCH);
    var era := TruncDiv(I32(if delta >= 0 then delta else U32(U32(delta - DAYS_IN_ERA) + 1)), DAYS_IN_ERA);
    var fdoe := I32(EPOCH + I32(U32(era * DAYS_IN_ERA)));
    FromEraDay(era, U32(z - fdoe))
  }

  /** The day split into a year of the era and a day of that year. */
  function YearAndDay(doe: nat): (int, int) {
    var period := if doe < 22 * DAYS_IN_PERIOD then doe / DAYS_IN_PERIOD else 22;
    var dop := doe % DAYS_IN_PERIOD;
    var cycle := if dop < DAYS_IN_FIRST_CYCLE then 0
                 else (dop - DAYS_IN_FIRST_CYCLE) / DAYS_IN_OTHER_CYCLES + 1;
    var doc := if dop < DAYS_IN_FIRST_CYCLE then dop else (dop - DAYS_IN_FIRST_CYCLE) % DAYS_IN_OTHER_CYCLES;
    YearAndDayOfCycle(doe, period, cycle, doc)
  }

  function YearAndDayOfCycle(doe: nat, period: int, cycle: int, doc: int): (int, int) {
    var group := if doc < 365 && period != 22 then -1 else ((if doc < 365 then 365 else doc) - 365) / 1461;
    var yog := if doc < 365 && period != 22 then -1
               else (if period != 22 then (doc - 365) % 1461 else doc) / 365;
    var yoc := if group == -1 then 0
               else (if period != 22 then 1 else 0) + group * 4 + (if yog == 4 then 3 else yog);
    var fdoc := if cycle > 0 then DAYS_IN_FIRST_CYCLE + (cycle - 1) * DAYS_IN_OTHER_CYCLES else 0;
    var rest := U32(doe - period * DAYS_IN_PERIOD - fdoc - (group * 1461 + ((if yog == 4 then 3 else yog) + 1) * 365));
    var doy := if group == -1 then doc
               else if period != 22 then
                 (if TruncMod(yoc - 1, 4) == 0 then (if group >= 0 then rest else 365) else rest)
               else if yog == 4 then 365
               else U32(doe - period * DAYS_IN_PERIOD - yog * 365);
    var yoe := if period != 22 then U32(period * 128 + (if cycle > 0 then 29 + (cycle - 1) * 33 else 0) + yoc)
               else U32(22 * 128 + (if yog == 4 then 3 else yog));
    (yoe, doy)
  }

  function FromEraDay(era: int, doe: nat): Date {
    var (yoe, doy) := YearAndDay(doe);
    var y := I32(U32(I32(yoe) + 475 + U32(era * YEARS_IN_ERA)));
    var m := if doy < 186 then doy / 31 + 1 else (doy - 186) / 30 + 7;
    var d := U32(doy - (30 * (m - 1) + (if m > 6 then 6 else m - 1) - 1));
    Date(I16(y), m, d)
  }

  function Next(x: Date): Date
    requires 1 <= x.month <= 12
  {
    if x.day < LastDay(x.year, x.month) then Date(x.year, x.month, x.day + 1)
    else if x.month < 12 then Date(x.year, x.month + 1, 1)
    else Date(x.year + 1, 1, 1)
  }

  // ----- inside an era no intermediate result wraps

  /** Years of a cycle before year `yoc`, in days: a short year 0, then groups of four whose
      last year is long. */
  function CycleYearStart(yoc: int): int {
    if yoc < 1 then 0 else (yoc - 1) / 4 * 1461 + ((yoc - 1) % 4 + 1) * 365
  }

  function CycleStart(cycle: int): int {
    if cycle < 1 then 0 else DAYS_IN_FIRST_CYCLE + (cycle - 1) * DAYS_IN_OTHER_CYCLES
  }

  function CycleYears(cycle: int): int {
    if cycle < 1 then 0 else 29 + (cycle - 1) * 33
  }

  /** Period, cycle and year of the cycle; period 22 is the four-year tail of the era. */
  predicate Place(period: int, cycle: int, yoc: int) {
    && 0 <= period <= 22 && 0 <= cycle <= 3
    && 0 <= yoc < (if period == 22 then 4 else if cycle == 0 then 29 else 33)
    && (period == 22 ==> cycle == 0)
  }

  predicate LongPlace(period: int, yoc: int) {
    if period == 22 then yoc == 3 else yoc != 0 && yoc % 4 == 0
  }

  lemma PlaceOfYear(yoe: int) returns (period: int, cycle: int, yoc: int)
    requires 0 <= yoe < YEARS_IN_ERA
    ensures Place(period, cycle, yoc) && yoe == period * 128 + CycleYears(cycle) + yoc
  {
    period := yoe / 128;
    var yop := yoe % 128;
    cycle := if yop < 29 then 0 else (yop - 29) / 33 + 1;
    yoc := yop - CycleYears(cycle);
  }

  lemma FirstDayOfCycleYearIs(yoc: int)
    requires 0 <= yoc < 33
    ensures FirstDayOfCycleYear(yoc) == CycleYearStart(yoc)
  {
    hide U32, TruncDiv, TruncMod;
    NoWrap();
    TruncNonnegative();
  }

  lemma FirstDayOfPeriodYearIs(cycle: int, yoc: int)
    requires 0 <= cycle <= 3 && 0 <= yoc < (if cycle == 0 then 29 else 33)
    ensures FirstDayOfPeriodYear(CycleYears(cycle) + yoc) == CycleStart(cycle) + CycleYearStart(yoc)
  {
    hide U32, TruncDiv, TruncMod, FirstDayOfCycleYear;
    NoWrap();
    TruncNonnegative();
    FirstDayOfCycleYearIs(yoc);
    if cycle > 0 {
      ModUnique(CycleYears(cycle) + yoc - 29, 33, cycle - 1, yoc);
    }
  }

  lemma FirstDayAtPlace(period: int, cycle: int, yoc: int)
    requires Place(period, cycle, yoc)
    ensures FirstDayOfYear(period * 128 + CycleYears(cycle) + yoc)
            == period * DAYS_IN_PERIOD + CycleStart(cycle) + CycleYearStart(yoc)
  {
    hide U32, TruncDiv, TruncMod, FirstDayOfPeriodYear;
    NoWrap();
    TruncNonnegative();
    var yop := CycleYears(cycle) + yoc;
    FirstDayOfPeriodYearIs(cycle, yoc);
    ModUnique(period * 128 + yop, 128, period, yop);
  }

  predicate DayAtPlace(period: int, yoc: int, k: int) {
    0 <= k < (if LongPlace(period, yoc) then 366 else 365)
  }

  lemma YearAndDayInCycle(period: int, cycle: int, yoc: int, k: int)
    requires Place(period, cycle, yoc) && DayAtPlace(period, yoc, k) && period < 22
    ensures YearAndDayOfCycle(period * DAYS_IN_PERIOD + CycleStart(cycle) + CycleYearStart(yoc) + k,
                              period, cycle, CycleYearStart(yoc) + k)
            == (period * 128 + CycleYears(cycle) + yoc, k)
  {
    hide YearAndDayOfCycle;
    if yoc > 0 {
      YearAndDayInGroup(period, cycle, (yoc - 1) / 4, (yoc - 1) % 4, k);
    } else {
      YearAndDayInFirst(period, cycle, k);
    }
  }

  lemma YearAndDayInFirst(period: int, cycle: int, k: int)
    requires 0 <= period < 22 && 0 <= cycle <= 3 && 0 <= k < 365
    ensures YearAndDayOfCycle(period * DAYS_IN_PERIOD + CycleStart(cycle) + k, period, cycle, k)
            == (period * 128 + CycleYears(cycle), k)
  {
    hide U32, TruncMod;
    NoWrap();
  }

  lemma YearAndDayInGroup(period: int, cycle: int, g: int, h: int, k: int)
    requires 0 <= period < 22 && 0 <= cycle <= 3 && 0 <= g < 8 && 0 <= h < 4
    requires 0 <= k < (if h == 3 then 366 else 365)
    ensures YearAndDayOfCycle(period * DAYS_IN_PERIOD + CycleStart(cycle) + 365 + 1461 * g + 365 * h + k,
                              period, cycle, 365 + 1461 * g + 365 * h + k)
            == (period * 128 + CycleYears(cycle) + 1 + 4 * g + h, k)
  {
    hide U32, TruncMod;
    NoWrap();
    ModUnique(1461 * g + 365 * h + k, 1461, g, 365 * h + k);
    ModUnique(365 * h + k, 365, if k == 365 then h + 1 else h, if k == 365 then 0 else k);
  }

  lemma YearAndDayInTail(yoc: int, k: int)
    requires 0 <= yoc < 4 && DayAtPlace(22, yoc, k)
    ensures YearAndDay(22 * DAYS_IN_PERIOD + 365 * yoc + k) == (22 * 128 + yoc, k)
  {
    hide U32, TruncMod;
    NoWrap();
    ModUnique(22 * DAYS_IN_PERIOD + 365 * yoc + k, DAYS_IN_PERIOD, 22, 365 * yoc + k);
  }

  lemma CycleDayRange(cycle: int, yoc: int, k: int)
    requires 0 <= cycle <= 3 && 0 <= yoc < (if cycle == 0 then 29 else 33) && DayAtPlace(0, yoc, k)
    ensures 0 <= CycleYearStart(yoc) + k < (if cycle == 0 then DAYS_IN_FIRST_CYCLE else DAYS_IN_OTHER_CYCLES)
  {}

  lemma YearAndDayAtPlace(period: int, cycle: int, yoc: int, k: int)
    requires Place(period, cycle, yoc) && DayAtPlace(period, yoc, k)
    ensures YearAndDay(period * DAYS_IN_PERIOD + CycleStart(cycle) + CycleYearStart(yoc) + k)
            == (period * 128 + CycleYears(cycle) + yoc, k)
  {
    if period == 22 {
      YearAndDayInTail(yoc, k);
    } else {
      hide YearAndDayOfCycle, CycleYearStart;
      CycleDayRange(cycle, yoc, k);
      var dop := CycleStart(cycle) + CycleYearStart(yoc) + k;
      ModUnique(period * DAYS_IN_PERIOD + dop, DAYS_IN_PERIOD, period, dop);
      if cycle > 0 {
        ModUnique(dop - DAYS_IN_FIRST_CYCLE, DAYS_IN_OTHER_CYCLES, cycle - 1, CycleYearStart(yoc) + k);
      }
      YearAndDayInCycle(period, cycle, yoc, k);
    }
  }

  lemma PlaceOfDay(doe: int) returns (period: int, cycle: int, yoc: int, k: int)
    requires 0 <= doe < DAYS_IN_ERA
    ensures Place(period, cycle, yoc) && DayAtPlace(period, yoc, k)
    ensures doe == period * DAYS_IN_PERIOD + CycleStart(cycle) + CycleYearStart(yoc) + k
  {
    period := if doe < 22 * DAYS_IN_PERIOD then doe / DAYS_IN_PERIOD else 22;
    var dop := doe - period * DAYS_IN_PERIOD;
    cycle := if dop < DAYS_IN_FIRST_CYCLE then 0 else (dop - DAYS_IN_FIRST_CYCLE) / DAYS_IN_OTHER_CYCLES + 1;
    var doc := dop - CycleStart(cycle);
    yoc, k := YearOfCycleDay(period, cycle, doc);
  }

  lemma YearOfCycleDay(period: int, cycle: int, doc: int) returns (yoc: int, k: int)
    requires 0 <= period <= 22 && 0 <= cycle <= 3 && (period == 22 ==> cycle == 0)
    requires 0 <= doc < (if period == 22 then 1461 else if cycle == 0 then DAYS_IN_FIRST_CYCLE else DAYS_IN_OTHER_CYCLES)
    ensures Place(period, cycle, yoc) && DayAtPlace(period, yoc, k)
    ensures doc == CycleYearStart(yoc) + k
  {
    if period == 22 {
      yoc := if doc == 1460 then 3 else doc / 365;
      k := doc - 365 * yoc;
    } else if doc < 365 {
      yoc, k := 0, doc;
    } else {
      var g, dog := (doc - 365) / 1461, (doc - 365) % 1461;
      var h := if dog == 1460 then 3 else dog / 365;
      yoc, k := 1 + 4 * g + h, dog - 365 * h;
      ModUnique(yoc - 1, 4, g, h);
    }
  }

  // ----- the two conversions, without the wraps

  lemma EraOfYearIsFloor(y: int)
    requires -0x10000 <= y < 0x10000
    ensures EraOfYear(y) == y / YEARS_IN_ERA
  {
    EraIsFloor(y, YEARS_IN_ERA);
  }

  /** The era and the year of the era, as both conversions and `is_leap` compute them. */
  lemma EraOfYearParts(era: int, yoe: int)
    requires 0 <= yoe < YEARS_IN_ERA && ShortYear(475 + era * YEARS_IN_ERA + yoe)
    ensures var y := era * YEARS_IN_ERA + yoe;
            EraOfYear(y) == era && U32(y - U32(era * YEARS_IN_ERA)) == yoe
  {
    hide EraOfYear, U32;
    var y := era * YEARS_IN_ERA + yoe;
    EraOfYearIsFloor(y);
    DivUnique(y, YEARS_IN_ERA, era);
    NoWrap();
    WrapAbsorbed(era * YEARS_IN_ERA, y);
  }

  lemma LongYearAtPlace(period: int, cycle: int, yoc: int)
    requires Place(period, cycle, yoc)
    ensures IsLongYearOfEra(period * 128 + CycleYears(cycle) + yoc) <==> LongPlace(period, yoc)
  {
    hide U32;
    NoWrap();
    var yop := CycleYears(cycle) + yoc;
    ModUnique(period * 128 + yop, 128, period, yop);
    if cycle > 0 {
      ModUnique(yop - 29, 33, cycle - 1, yoc);
    }
  }

  function MonthStart(m: int): int {
    30 * (m - 1) + (if m > 6 then 6 else m - 1)
  }

  lemma ToDaysPlain(x: Date, era: int, yoe: int)
    requires 0 <= yoe < YEARS_IN_ERA && ShortYear(x.year) && x.year == 475 + era * YEARS_IN_ERA + yoe
    requires 1 <= x.month <= 12 && 1 <= x.day <= 31
    requires 0 <= FirstDayOfYear(yoe) < DAYS_IN_ERA
    ensures ToDays(x) == EPOCH - UNIX_TIME_SHIFT + era * DAYS_IN_ERA + FirstDayOfYear(yoe)
                         + MonthStart(x.month) + x.day - 1
  {
    hide EraOfYear, FirstDayOfYear, U32, I32;
    NoWrap();
    EraOfYearParts(era, yoe);
    WrapAbsorbed(era * DAYS_IN_ERA, EPOCH);
    WrapAbsorbed(EPOCH + era * DAYS_IN_ERA + FirstDayOfYear(yoe) + MonthStart(x.month) + x.day - 1, -UNIX_TIME_SHIFT);
  }

  lemma FromDaysPlain(dp: int, era: int, doe: int)
    requires 0 <= doe < DAYS_IN_ERA && -20 <= era <= 20 && dp == EPOCH - UNIX_TIME_SHIFT + era * DAYS_IN_ERA + doe
    ensures FromDays(dp) == FromEraDay(era, doe)
  {
    hide U32, I32, FromEraDay, TruncDiv;
    NoWrap();
    var delta := era * DAYS_IN_ERA + doe;
    WrapAbsorbed(dp + UNIX_TIME_SHIFT, -EPOCH);
    WrapAbsorbed(delta - DAYS_IN_ERA, 1);
    EraIsFloor(delta, DAYS_IN_ERA);
    DivUnique(delta, DAYS_IN_ERA, era);
    WrapAbsorbed(dp + UNIX_TIME_SHIFT, -(EPOCH + era * DAYS_IN_ERA));
  }

  function MonthOfDay(k: int): int {
    if k < 186 then k / 31 + 1 else (k - 186) / 30 + 7
  }

  lemma FromEraDayPlain(era: int, doe: int, yoe: int, k: int)
    requires doe >= 0 && YearAndDay(doe) == (yoe, k) && 0 <= k < 366
    requires 0 <= yoe < YEARS_IN_ERA && ShortYear(475 + era * YEARS_IN_ERA + yoe)
    ensures var m := MonthOfDay(k);
            && FromEraDay(era, doe) == Date(475 + era * YEARS_IN_ERA + yoe, m, k - MonthStart(m) + 1)
            && 1 <= m <= 12 && 1 <= k - MonthStart(m) + 1 <= (if m <= 6 then 31 else 30)
            && (m == 12 && k - MonthStart(m) + 1 == 30 ==> k == 365)
  {
    hide U32, I32, YearAndDay;
    NoWrap();
    WrapAbsorbed(era * YEARS_IN_ERA, yoe + 475);
  }

  /** The day number of the first day of a place, and the place that follows it. */
  function FirstDay(period: int, cycle: int, yoc: int): int {
    period * DAYS_IN_PERIOD + CycleStart(cycle) + CycleYearStart(yoc)
  }

  lemma NextPlace(period: int, cycle: int, yoc: int) returns (period': int, cycle': int, yoc': int)
    requires Place(period, cycle, yoc) && !(period == 22 && yoc == 3)
    ensures Place(period', cycle', yoc')
    ensures period' * 128 + CycleYears(cycle') + yoc' == period * 128 + CycleYears(cycle) + yoc + 1
    ensures FirstDay(period', cycle', yoc') == FirstDay(period, cycle, yoc) + (if LongPlace(period, yoc) then 366 else 365)
  {
    var years := if period == 22 then 4 else if cycle == 0 then 29 else 33;
    if yoc + 1 < years {
      return period, cycle, yoc + 1;
    } else if cycle < 3 {
      return period, cycle + 1, 0;
    } else {
      return period + 1, 0, 0;
    }
  }

  // ----- the calendar of all years, which the code computes for the years a `short` holds

  function PlainYearStart(y: int): int {
    EPOCH - UNIX_TIME_SHIFT + (y - 475) / YEARS_IN_ERA * DAYS_IN_ERA + FirstDayOfYear((y - 475) % YEARS_IN_ERA)
  }

  predicate PlainLeap(y: int) {
    IsLongYearOfEra((y - 475) % YEARS_IN_ERA)
  }

  lemma PlainAtPlace(era: int, period: int, cycle: int, yoc: int)
    requires Place(period, cycle, yoc)
    ensures var y := 475 + era * YEARS_IN_ERA + period * 128 + CycleYears(cycle) + yoc;
            && PlainYearStart(y) == EPOCH - UNIX_TIME_SHIFT + era * DAYS_IN_ERA + FirstDay(period, cycle, yoc)
            && (PlainLeap(y) <==> LongPlace(period, yoc))
  {
    hide FirstDayOfYear, IsLongYearOfEra;
    FirstDayAtPlace(period, cycle, yoc);
    LongYearAtPlace(period, cycle, yoc);
    var yoe := period * 128 + CycleYears(cycle) + yoc;
    ModUnique(era * YEARS_IN_ERA + yoe, YEARS_IN_ERA, era, yoe);
  }

  lemma PlaceOfAnyYear(y: int) returns (era: int, period: int, cycle: int, yoc: int)
    ensures Place(period, cycle, yoc)
    ensures y == 475 + era * YEARS_IN_ERA + period * 128 + CycleYears(cycle) + yoc
  {
    era := (y - 475) / YEARS_IN_ERA;
    period, cycle, yoc := PlaceOfYear((y - 475) % YEARS_IN_ERA);
  }

  lemma EraEnd()
    ensures FirstDay(22, 0, 3) + 366 == DAYS_IN_ERA && FirstDay(0, 0, 0) == 0
    ensures 22 * 128 + CycleYears(0) + 3 + 1 == YEARS_IN_ERA && CycleYears(0) == 0
  {}

  lemma PlainYearLength(y: int)
    ensures PlainYearStart(y + 1) - PlainYearStart(y) == (if PlainLeap(y) then 366 else 365)
  {
    hide PlainYearStart, PlainLeap, CycleYears, FirstDay;
    var era, period, cycle, yoc := PlaceOfAnyYear(y);
    PlainAtPlace(era, period, cycle, yoc);
    if period == 22 && yoc == 3 {
      PlainAtPlace(era + 1, 0, 0, 0);
      EraEnd();
    } else {
      var period', cycle', yoc' := NextPlace(period, cycle, yoc);
      PlainAtPlace(era, period', cycle', yoc');
    }
  }

  lemma {:induction false} PlainYearOrder(y: int, z: int)
    requires y <= z
    ensures PlainYearStart(y) + 365 * (z - y) <= PlainYearStart(z)
    decreases z - y
  {
    hide PlainYearStart, PlainLeap;
    if y < z {
      PlainYearOrder(y, z - 1);
      PlainYearLength(z - 1);
    }
  }

  lemma FirstDayRange(yoe: int)
    requires 0 <= yoe < YEARS_IN_ERA
    ensures 0 <= FirstDayOfYear(yoe) < DAYS_IN_ERA
  {
    hide FirstDayOfYear;
    var period, cycle, yoc := PlaceOfYear(yoe);
    FirstDayAtPlace(period, cycle, yoc);
  }

  // ----- theorems

  lemma ToDaysByYear(x: Date)
    requires ShortYear(x.year) && 1 <= x.month <= 12 && 1 <= x.day <= 31
    ensures ToDays(x) == PlainYearStart(x.year) + MonthStart(x.month) + x.day - 1
  {
    hide ToDays, FirstDayOfYear, MonthStart;
    var era, yoe := (x.year - 475) / YEARS_IN_ERA, (x.year - 475) % YEARS_IN_ERA;
    FirstDayRange(yoe);
    ToDaysPlain(x, era, yoe);
  }

  lemma IsLeapIsPlain(y: int)
    requires ShortYear(y)
    ensures IsLeap(y) <==> PlainLeap(y)
  {
    hide EraOfYear, IsLongYearOfEra, U32;
    EraOfYearParts((y - 475) / YEARS_IN_ERA, (y - 475) % YEARS_IN_ERA);
  }

  /** `is_leap` tells exactly the years that `to_days` makes 366 days long; the others have 365. */
  lemma LeapYearsAreLong(y: int)
    requires ShortYear(y) && ShortYear(y + 1)
    ensures ToDays(Date(y + 1, 1, 1)) - ToDays(Date(y, 1, 1)) == (if IsLeap(y) then 366 else 365)
  {
    hide ToDays, IsLeap, PlainYearStart, PlainLeap;
    ToDaysByYear(Date(y, 1, 1));
    ToDaysByYear(Date(y + 1, 1, 1));
    PlainYearLength(y);
    IsLeapIsPlain(y);
  }

  /** The day numbers of the dates a `year_month_day` can hold. */
  predicate InRange(dp: int) {
    ToDays(Date(-0x8000, 1, 1)) <= dp <= ToDays(Date(0x7fff, 12, LastDay(0x7fff, 12)))
  }

  lemma ValidInYear(x: Date)
    requires Valid(x) && ShortYear(x.year)
    ensures PlainYearStart(x.year) <= ToDays(x) < PlainYearStart(x.year + 1)
  {
    hide ToDays, PlainYearStart, IsLeap, PlainLeap;
    ToDaysByYear(x);
    PlainYearLength(x.year);
    IsLeapIsPlain(x.year);
  }

  lemma InRangeYear(dp: int, y: int)
    requires InRange(dp) && PlainYearStart(y) <= dp < PlainYearStart(y + 1)
    ensures ShortYear(y)
  {
    hide ToDays, PlainYearStart, IsLeap;
    ToDaysByYear(Date(-0x8000, 1, 1));
    var last := Date(0x7fff, 12, LastDay(0x7fff, 12));
    ValidInYear(last);
    if y < -0x8000 {
      PlainYearOrder(y + 1, -0x8000);
    } else if y > 0x7fff {
      PlainYearOrder(0x8000, y);
    }
  }

  lemma Split(dp: int) returns (y: int, k: int)
    requires InRange(dp)
    ensures ShortYear(y) && 0 <= k < (if IsLeap(y) then 366 else 365) && dp == PlainYearStart(y) + k
    ensures FromDays(dp) == Date(y, MonthOfDay(k), k - MonthStart(MonthOfDay(k)) + 1)
    ensures Valid(FromDays(dp))
  {
    hide ToDays, FromDays, FromEraDay, YearAndDay, PlainYearStart, IsLeap, PlainLeap, FirstDayOfYear, EraOfYear;
    hide CycleYears, CycleStart, CycleYearStart;
    RangeBounds(dp);
    var n := dp - EPOCH + UNIX_TIME_SHIFT;
    var era, doe := n / DAYS_IN_ERA, n % DAYS_IN_ERA;
    var period, cycle, yoc, day := PlaceOfDay(doe);
    var yoe := period * 128 + CycleYears(cycle) + yoc;
    y, k := 475 + era * YEARS_IN_ERA + yoe, day;
    PlainAtPlace(era, period, cycle, yoc);
    PlainYearLength(y);
    InRangeYear(dp, y);
    IsLeapIsPlain(y);
    FromDaysPlain(dp, era, doe);
    YearAndDayAtPlace(period, cycle, yoc, k);
    YearOfPlace(period, cycle, yoc);
    FromEraDayPlain(era, doe, yoe, k);
  }

  lemma YearOfPlace(period: int, cycle: int, yoc: int)
    requires Place(period, cycle, yoc)
    ensures 0 <= period * 128 + CycleYears(cycle) + yoc < YEARS_IN_ERA
  {}

  lemma RangeBounds(dp: int)
    requires InRange(dp)
    ensures -15 * DAYS_IN_ERA <= dp - EPOCH + UNIX_TIME_SHIFT < 15 * DAYS_IN_ERA
  {
    hide ToDays, FirstDayOfYear, IsLeap;
    ToDaysByYear(Date(-0x8000, 1, 1));
    ToDaysByYear(Date(0x7fff, 12, LastDay(0x7fff, 12)));
    FirstDayRange((-0x8000 - 475) % YEARS_IN_ERA);
    FirstDayRange((0x7fff - 475) % YEARS_IN_ERA);
  }

  lemma ToDaysOfFromDays(dp: int)
    requires InRange(dp)
    ensures var x := FromDays(dp); ShortYear(x.year) && Valid(x) && ToDays(x) == dp
  {
    hide ToDays, FromDays, PlainYearStart, IsLeap, InRange;
    var y, k := Split(dp);
    ToDaysByYear(FromDays(dp));
  }

  lemma OrderPreserved(a: Date, b: Date)
    requires Valid(a) && Valid(b) && ShortYear(a.year) && ShortYear(b.year)
    ensures Less(a, b) <==> ToDays(a) < ToDays(b)
  {
    hide ToDays;
    if Less(a, b) {
      LessImpliesFewerDays(a, b);
    } else if Less(b, a) {
      LessImpliesFewerDays(b, a);
    }
  }

  lemma LessImpliesFewerDays(a: Date, b: Date)
    requires Valid(a) && Valid(b) && ShortYear(a.year) && ShortYear(b.year) && Less(a, b)
    ensures ToDays(a) < ToDays(b)
  {
    hide ToDays, IsLeap, PlainYearStart;
    if a.year == b.year {
      ToDaysByYear(a);
      ToDaysByYear(b);
    } else {
      ValidInYear(a);
      ValidInYear(b);
      PlainYearOrder(a.year + 1, b.year);
    }
  }

  lemma ToDaysInRange(x: Date)
    requires Valid(x) && ShortYear(x.year)
    ensures InRange(ToDays(x))
  {
    hide ToDays, IsLeap;
    OrderPreserved(x, Date(-0x8000, 1, 1));
    OrderPreserved(Date(0x7fff, 12, LastDay(0x7fff, 12)), x);
  }

  lemma FromDaysOfToDays(x: Date)
    requires Valid(x) && ShortYear(x.year)
    ensures FromDays(ToDays(x)) == x
  {
    hide ToDays, FromDays, Valid, InRange;
    ToDaysInRange(x);
    ToDaysOfFromDays(ToDays(x));
    OrderPreserved(x, FromDays(ToDays(x)));
    OrderPreserved(FromDays(ToDays(x)), x);
  }

  lemma NextAddsOne(x: Date)
    requires Valid(x) && ShortYear(x.year) && ShortYear(Next(x).year)
    ensures Valid(Next(x)) && ToDays(Next(x)) == ToDays(x) + 1
  {
    hide ToDays, IsLeap, PlainYearStart, PlainLeap;
    ToDaysByYear(x);
    ToDaysByYear(Next(x));
    PlainYearLength(x.year);
    IsLeapIsPlain(x.year);
  }

  /** The first day of 1349 is 1970-03-21 of the Gregorian calendar, day 79. */
  lemma Anchor()
    ensures ToDays(Date(1349, 1, 1)) == 79
  {
    hide ToDays, PlainYearStart;
    PlainAtPlace(0, 6, 3, 11);
    ToDaysByYear(Date(1349, 1, 1));
  }
}
