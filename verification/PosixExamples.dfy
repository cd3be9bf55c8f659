/** Zones that meet the conditions of `PosixZone` and `PosixLocal` and zones that do not, each of which
    the constructor can build. */
module PosixExamples {
  import opened PosixZone
  import opened CalendarDate
  import opened CppArith
  import opened Digits
  import opened PosixName
  import opened PosixText
  import opened PosixLocal
  import opened Weekdays
  import Gregorian

  /** The zone of the header's own example, `EST5EDT,M3.2.0,M11.1.0`. */
  const NEW_YORK := Zone("EST", "EDT", -5 * 3600, 3600, M(3, 2, 0, 7200), M(11, 1, 0, 7200))

  /** `AEST-10AEDT,M10.1.0,M4.1.0/3`. */
  const SYDNEY := Zone("AEST", "AEDT", 10 * 3600, 3600, M(10, 1, 0, 7200), M(4, 1, 0, 10800))

  lemma NewYorkYear(y: int)
    ensures YearBegin(y) + 50 * DAY <= Start(NEW_YORK, y) && Start(NEW_YORK, y) + 200 * DAY <= End(NEW_YORK, y)
    ensures End(NEW_YORK, y) + DAY <= YearBegin(y + 1)
  {
    hide RuleAt, YearBegin;
    MonthRuleRange(y, 3, 2, 0, 7200);
    MonthRuleRange(y, 11, 1, 0, 7200);
    YearBeginStep(y);
  }

  /** It meets all the conditions, so its `get_info` is right for all times and its local times are
      classified exactly. */
  lemma NewYorkIsRegular()
    ensures ZoneOk(NEW_YORK) && Northern(NEW_YORK) && YearsApart(NEW_YORK) && Regular(NEW_YORK)
  {
    hide Start, End, YearBegin;
    forall y ensures Start(NEW_YORK, y) <= End(NEW_YORK, y) && Away(NEW_YORK, y) && Long(NEW_YORK, y) {
      NewYorkYear(y);
    }
    AwayMeansYearsApart(NEW_YORK);
  }

  /** In 2024 from 10 March, 07:00, to 3 November, 06:00. */
  lemma NewYork2024(st: int)
    requires 1710054000 <= st < 1730613600
    ensures GetInfo(NEW_YORK, st) == Info(1710054000, 1730613600, -14400, 60, "EDT")
    ensures GetInfo(NEW_YORK, 1710053999).offset == GetInfo(NEW_YORK, 1730613600).offset == -18000
    ensures GetInfo(NEW_YORK, 1710053999).abbrev == GetInfo(NEW_YORK, 1730613600).abbrev == "EST"
  {
    hide GetInfo, Orderly, Start, End, ZoneOk;
    NewYorkRules();
    NewYorkInTurn();
    InfoInTurn(NEW_YORK, 0, 2024, st);
    InfoInTurn(NEW_YORK, 0, 2024, 1730613600);
    InfoInTurn(NEW_YORK, 0, 2023, 1710053999);
  }

  lemma NewYorkRules()
    ensures Start(NEW_YORK, 2024) == 1710054000 && End(NEW_YORK, 2024) == 1730613600
    ensures End(NEW_YORK, 2023) < 1710053999 && Start(NEW_YORK, 2025) > 1730613600
  {
    hide RuleAt, YearBegin;
    NewYorkYear(2023);
    NewYorkYear(2025);
    YearBegins();
    assert RuleAt(M(3, 2, 0, 7200), 2024) == 19792 * 86400 + 7200 by { SecondSunday(); }
    assert RuleAt(M(11, 1, 0, 7200), 2024) == 20030 * 86400 + 7200 by { FirstSunday(); }
  }

  lemma YearBegins()
    ensures YearBegin(2024) == 19723 * DAY && YearBegin(2025) == 20089 * DAY
  {
    hide Gregorian.ToDays;
    Gregorian.ToDaysIsCivilDays(Date(2024, 1, 1));
    Gregorian.ToDaysIsCivilDays(Date(2025, 1, 1));
  }

  lemma SecondSunday()
    ensures RuleAt(M(3, 2, 0, 7200), 2024) == 19792 * 86400 + 7200
  {
    hide Gregorian.ToDays, RuleAt, Gregorian.LastDay;
    var d := MonthRuleDay(2024, 3, 2, 0);
    Gregorian.ToDaysIsCivilDays(Date(2024, 3, d));
  }

  lemma FirstSunday()
    ensures RuleAt(M(11, 1, 0, 7200), 2024) == 20030 * 86400 + 7200
  {
    hide Gregorian.ToDays, RuleAt, Gregorian.LastDay;
    var d := MonthRuleDay(2024, 11, 1, 0);
    Gregorian.ToDaysIsCivilDays(Date(2024, 11, d));
  }

  lemma NewYorkInTurn()
    ensures ZoneOk(NEW_YORK) && Orderly(NEW_YORK, 0)
  {
    hide Start, End, YearBegin;
    forall y ensures InTurn(NEW_YORK, 0, y) {
      NewYorkYear(y);
      NewYorkYear(y + 1);
    }
  }

  lemma SydneyYear(y: int)
    ensures YearBegin(y) + 50 * DAY <= End(SYDNEY, y) && End(SYDNEY, y) + 100 * DAY <= Start(SYDNEY, y)
    ensures Start(SYDNEY, y) + DAY <= YearBegin(y + 1)
  {
    hide RuleAt, YearBegin;
    MonthRuleRange(y, 10, 1, 0, 7200);
    MonthRuleRange(y, 4, 1, 0, 10800);
    YearBeginStep(y);
  }

  /** So does a southern one. */
  lemma SydneyIsRegular()
    ensures ZoneOk(SYDNEY) && Southern(SYDNEY) && InOwnYear(SYDNEY) && Regular(SYDNEY)
  {
    hide Start, End, YearBegin;
    forall y ensures End(SYDNEY, y) < Start(SYDNEY, y) && Away(SYDNEY, y) && Long(SYDNEY, y)
             ensures YearBegin(y) <= End(SYDNEY, y) && Start(SYDNEY, y) <= YearBegin(y + 1) {
      SydneyYear(y);
    }
  }

  /** The second a day rule names. */
  lemma DayRules(y: int, n: int, time: int)
    ensures RuleAt(N(n, time), y) == YearBegin(y) + n * DAY + time
    ensures RuleAt(J(n, time), y) == YearBegin(y) + (n - 1 + if Gregorian.IsLeap(y) && n > 59 then 1 else 0) * DAY + time
  {
    hide Gregorian.ToDays, Gregorian.IsLeap;
    YearBeginIs();
    DayZero(y);
  }

  /** A southern zone twelve hours east whose standard time begins with the local year, so in the
      year before of UTC: `AAA-12BBB,300/0,0/0`. */
  const FAR_EAST := Zone("AAA", "BBB", 12 * 3600, 3600, N(300, 0), N(0, 0))

  /** For it the assertion at the end of `get_info` does not hold at the second standard time begins. */
  lemma AssertionFails(y: int)
    ensures ZoneOk(FAR_EAST) && Southern(FAR_EAST) && !InOwnYear(FAR_EAST)
    ensures var st := End(FAR_EAST, y); st >= GetInfo(FAR_EAST, st).end
  {
    hide RuleAt, YearBegin, YearOf;
    forall k ensures RuleAt(FAR_EAST.end, k) == YearBegin(k) && RuleAt(FAR_EAST.start, k) == YearBegin(k) + 300 * DAY {
      DayRules(k, 0, 0);
      DayRules(k, 300, 0);
    }
    var st := End(FAR_EAST, y);
    YearBeginStep(y - 2);
    YearBeginStep(y - 1);
    YearBeginStep(y);
    YearOfUnique(st, y - 1);
  }

  /** A northern zone whose daylight time reaches into the next year's after every year that is no leap
      year: `AAA0BBB,0/0,365`. */
  const ALL_YEAR := Zone("AAA", "BBB", 0, 3600, N(0, 0), N(365, 7200))

  /** For it `get_info` is not right around the end of any such year. */
  lemma NorthernFails(y: int)
    requires !Gregorian.IsLeap(y)
    ensures ZoneOk(ALL_YEAR) && Northern(ALL_YEAR)
    ensures End(ALL_YEAR, y) > Start(ALL_YEAR, y + 1)
    ensures !SoundAt(ALL_YEAR, Start(ALL_YEAR, y + 1) - 1) || !SoundAt(ALL_YEAR, End(ALL_YEAR, y))
  {
    hide RuleAt, YearBegin, SoundAt, Gregorian.IsLeap, Gregorian.YearStart;
    forall k ensures Start(ALL_YEAR, k) == YearBegin(k) && End(ALL_YEAR, k) == YearBegin(k) + 365 * DAY + 3600 {
      DayRules(k, 0, 0);
      DayRules(k, 365, 7200);
    }
    ShortYear(y);
    NorthernOverlap(ALL_YEAR, y);
  }

  lemma ShortYear(y: int)
    requires !Gregorian.IsLeap(y)
    ensures YearBegin(y + 1) == YearBegin(y) + 365 * DAY
  {
    hide Gregorian.YearStart, Gregorian.IsLeap;
    Gregorian.YearLength(y);
  }

  /** A zone whose daylight time begins at the midnight that ends the year, in the year it ends:
      `AAA0BBB,J365/24,J100`. */
  const MIDNIGHT := Zone("AAA", "BBB", 0, 3600, J(365, 24 * 3600), J(100, 7200))

  lemma MidnightYear(y: int)
    ensures Start(MIDNIGHT, y) == YearBegin(y + 1)
    ensures YearBegin(y) + 90 * DAY < End(MIDNIGHT, y) < YearBegin(y) + 110 * DAY < YearBegin(y + 1)
  {
    hide RuleAt, YearBegin, Gregorian.IsLeap;
    YearEndsAt(y);
    DayRules(y, 100, 7200);
    YearBeginStep(y);
  }

  lemma MidnightIsOrderly()
    ensures ZoneOk(MIDNIGHT) && Southern(MIDNIGHT) && InOwnYear(MIDNIGHT) && Orderly(MIDNIGHT, 1)
  {
    hide Start, End, YearBegin;
    forall y ensures End(MIDNIGHT, y) < Start(MIDNIGHT, y) && InTurn(MIDNIGHT, 1, y)
             ensures YearBegin(y) <= End(MIDNIGHT, y) && Start(MIDNIGHT, y) <= YearBegin(y + 1) {
      MidnightYear(y);
      MidnightYear(y + 1);
    }
  }

  /** `get_info` is right for it, but the hour that is skipped lies in the local year after: no instant
      shows a time of it, and it is classified as unique. */
  lemma GapMissed(y: int, tp: int)
    requires YearBegin(y + 1) <= tp < YearBegin(y + 1) + 3600
    ensures ZoneOk(MIDNIGHT) && Southern(MIDNIGHT) && InOwnYear(MIDNIGHT)
    ensures GetLocalInfo(MIDNIGHT, tp).result == Unique && forall st :: !ShowsAs(MIDNIGHT, st, tp)
  {
    hide Start, End, YearBegin, Dst, Orderly, GetLocalInfo, ShowsAs, YearOf;
    MidnightIsOrderly();
    MidnightYear(y);
    MidnightYear(y + 1);
    YearBeginStep(y);
    YearBeginStep(y + 1);
    YearOfUnique(tp, y + 1);
    ResultIs(MIDNIGHT, tp);
    Shown(MIDNIGHT, tp);
    Tells(MIDNIGHT, 1, y, tp);
    Tells(MIDNIGHT, 1, y - 1, tp - 3600);
  }

  lemma YearEndsAt(y: int)
    ensures RuleAt(J(365, 24 * 3600), y) == YearBegin(y + 1)
  {
    hide RuleAt, Gregorian.IsLeap, Gregorian.YearStart;
    DayRules(y, 365, 24 * 3600);
    Gregorian.YearLength(y);
  }

  /** A northern zone whose daylight time ends half an hour after the local year, which its clock then
      ends twice: `AAA0BBB,J100,J365/24:30`. */
  const NEW_YEAR := Zone("AAA", "BBB", 0, 3600, J(100, 7200), J(365, 24 * 3600 + 1800))

  lemma NewYearYear(y: int)
    ensures End(NEW_YEAR, y) == YearBegin(y + 1) - 1800
    ensures YearBegin(y) + 90 * DAY < Start(NEW_YEAR, y) < YearBegin(y) + 110 * DAY < YearBegin(y + 1) - 110 * DAY
  {
    hide RuleAt, YearBegin, Gregorian.IsLeap, Gregorian.YearStart;
    DayRules(y, 365, 24 * 3600 + 1800);
    DayRules(y, 100, 7200);
    Gregorian.YearLength(y);
    YearIs(y);
  }

  lemma YearIs(y: int)
    ensures YearBegin(y + 1) - YearBegin(y) == (Gregorian.YearStart(y + 1) - Gregorian.YearStart(y)) * DAY
  {
    hide Gregorian.YearStart;
  }

  lemma NewYearIsOrderly()
    ensures ZoneOk(NEW_YEAR) && Northern(NEW_YEAR) && Orderly(NEW_YEAR, 0) && Spread(NEW_YEAR, 0)
  {
    hide Start, End, YearBegin;
    forall y ensures Start(NEW_YEAR, y) <= End(NEW_YEAR, y) && InTurn(NEW_YEAR, 0, y) && SpreadAt(NEW_YEAR, 0, y) {
      NewYearYear(y);
      NewYearYear(y + 1);
    }
  }

  /** The daylight instants that show the first half hour of a local year are not led back to: the time
      is classified as unique and given to standard time. */
  lemma NotLedBack(y: int, st: int)
    requires YearBegin(y + 1) - 3600 <= st < YearBegin(y + 1) - 1800
    ensures ZoneOk(NEW_YEAR) && Northern(NEW_YEAR) && Orderly(NEW_YEAR, 0) && Spread(NEW_YEAR, 0)
    ensures ToLocal(NEW_YEAR, st) == st + 3600 && !Returns(NEW_YEAR, st)
  {
    hide Start, End, YearBegin, Dst, Orderly, Spread, GetLocalInfo, Returns, ToLocal, YearOf;
    NewYearIsOrderly();
    NewYearYear(y);
    NewYearYear(y + 1);
    YearBeginStep(y + 1);
    var v := st + 3600;
    YearOfUnique(v, y + 1);
    Tells(NEW_YEAR, 0, y, st);
    Tells(NEW_YEAR, 0, y, v);
    DaylightShows(NEW_YEAR, v);
    ResultIs(NEW_YEAR, v);
    ReturnsIs(NEW_YEAR, v, st);
  }

  /** Half an hour of saving, given by an offset of its own. */
  const LORD_HOWE := Zone("+1030", "+11", 37800, 1800, M(10, 1, 0, 7200), M(4, 1, 0, 7200))

  lemma Printed(z: Zone, std: string, offset: string, dst: string, save: string, start: string, end: string)
    requires Constructible(z) && !z.start.Off? && z.dst != ""
    requires PrintAbbrev(z.std) == std && PrintOffset(z.offset) == offset && PrintAbbrev(z.dst) == dst
    requires PrintSave(z.offset, z.save) == save && PrintRule(z.start) == start && PrintRule(z.end) == end
    ensures var text := std + offset + (dst + save + ("," + (start + ("," + end)))); Parse(text) == Ok(z) && Name(z) == text
  {
    hide Parse, PrintAbbrev, PrintOffset, PrintSave, PrintRule;
    NameRoundTrip(z);
  }

  lemma Digit(n: nat)
    requires n < 10
    ensures Decimal(n) == ["0123456789"[n]]
  {
    DecimalIs(n);
  }

  /** Whole and half hours. */
  lemma Hours(h: nat)
    requires h < 25
    ensures PrintTime(h * 3600) == Decimal(h)
    ensures PrintTime(h * 3600 + 1800) == Decimal(h) + ":30"
  {
    hide Decimal;
    Tens(30);
    ModUnique(h * 3600, 3600, h, 0);
    ModUnique(h * 3600, 60, h * 60, 0);
    ModUnique(h * 3600 + 1800, 3600, h, 1800);
    ModUnique(h * 3600 + 1800, 60, h * 60 + 30, 0);
    assert Decimal(h) + "" == Decimal(h);
  }

  lemma Tens(n: nat)
    requires 10 <= n < 100
    ensures Decimal(n) == ["0123456789"[n / 10], "0123456789"[n % 10]]
  {
    hide Decimal;
    DecimalIs(n);
    Digit(n / 10);
  }

  lemma Hundreds(n: nat)
    requires 100 <= n < 1000
    ensures Decimal(n) == ["0123456789"[n / 100], "0123456789"[n / 10 % 10], "0123456789"[n % 10]]
  {
    hide Decimal;
    DecimalIs(n);
    Tens(n / 10);
  }

  lemma Letters(nm: string)
    requires forall k :: 0 <= k < |nm| ==> 'A' <= nm[k] <= 'Z'
    ensures PrintAbbrev(nm) == nm
  {}

  lemma WeekRule(m: nat, n: nat, wd: nat, time: nat)
    requires 1 <= m <= 12 && 1 <= n < 6 && wd < 7 && time < 25 * 3600
    ensures PrintRule(M(m, n, wd, time))
            == "M" + (Decimal(m) + ("." + (["0123456789"[n]] + ("." + ["0123456789"[wd]])))) + PrintRuleTime(time)
  {
    hide Decimal, PrintRuleTime;
    Digit(n);
    Digit(wd);
  }

  lemma RuleTimes()
    ensures PrintRuleTime(7200) == "" && PrintRuleTime(0) == "/0" && PrintRuleTime(10800) == "/3"
    ensures PrintRuleTime(86400) == "/24" && PrintRuleTime(88200) == "/24:30"
  {
    hide Decimal, PrintTime;
    Hours(0);
    Hours(3);
    Hours(24);
    Digit(0);
    Digit(3);
    Tens(24);
  }

  lemma NewYorkText()
    ensures "EST" + "5" + ("EDT" + "" + ("," + ("M3.2.0" + ("," + "M11.1.0")))) == "EST5EDT,M3.2.0,M11.1.0"
  {}

  lemma SydneyText()
    ensures "AEST" + "-10" + ("AEDT" + "" + ("," + ("M10.1.0" + ("," + "M4.1.0/3")))) == "AEST-10AEDT,M10.1.0,M4.1.0/3"
  {}

  lemma LordHoweText()
    ensures "<+1030>" + "-10:30" + ("<+11>" + "-11" + ("," + ("M10.1.0" + ("," + "M4.1.0")))) == "<+1030>-10:30<+11>-11,M10.1.0,M4.1.0"
  {}

  lemma FarEastText()
    ensures "AAA" + "-12" + ("BBB" + "" + ("," + ("300/0" + ("," + "0/0")))) == "AAA-12BBB,300/0,0/0"
  {}

  lemma AllYearText()
    ensures "AAA" + "0" + ("BBB" + "" + ("," + ("0/0" + ("," + "365")))) == "AAA0BBB,0/0,365"
  {}

  lemma MidnightText()
    ensures "AAA" + "0" + ("BBB" + "" + ("," + ("J365/24" + ("," + "J100")))) == "AAA0BBB,J365/24,J100"
  {}

  lemma NewYearText()
    ensures "AAA" + "0" + ("BBB" + "" + ("," + ("J100" + ("," + "J365/24:30")))) == "AAA0BBB,J100,J365/24:30"
  {}

  lemma NewYorkParts()
    ensures PrintOffset(-18000) == "5" && PrintAbbrev("EST") == "EST" && PrintAbbrev("EDT") == "EDT"
    ensures PrintRule(M(3, 2, 0, 7200)) == "M3.2.0" && PrintRule(M(11, 1, 0, 7200)) == "M11.1.0"
  {
    hide PrintAbbrev, Decimal, PrintRule, PrintTime, PrintRuleTime;
    Letters("EST");
    Letters("EDT");
    Hours(5);
    Digit(5);
    Digit(3);
    Tens(11);
    RuleTimes();
    WeekRule(3, 2, 0, 7200);
    WeekRule(11, 1, 0, 7200);
  }

  /** What the constructor makes of the header's example, in plain numbers. */
  lemma NewYorkRead()
    ensures Parse("EST5EDT,M3.2.0,M11.1.0") == Ok(Zone("EST", "EDT", -18000, 3600, M(3, 2, 0, 7200), M(11, 1, 0, 7200)))
    ensures NEW_YORK == Zone("EST", "EDT", -18000, 3600, M(3, 2, 0, 7200), M(11, 1, 0, 7200))
    ensures Name(NEW_YORK) == "EST5EDT,M3.2.0,M11.1.0"
  {
    hide Parse, PrintAbbrev, PrintOffset, PrintRule;
    NewYorkParts();
    NewYorkText();
    Printed(NEW_YORK, "EST", "5", "EDT", "", "M3.2.0", "M11.1.0");
  }

  lemma OctoberToApril()
    ensures PrintRule(M(10, 1, 0, 7200)) == "M10.1.0"
    ensures PrintRule(M(4, 1, 0, 10800)) == "M4.1.0/3" && PrintRule(M(4, 1, 0, 7200)) == "M4.1.0"
  {
    hide Decimal, PrintRule, PrintTime, PrintRuleTime;
    Digit(4);
    Tens(10);
    RuleTimes();
    WeekRule(10, 1, 0, 7200);
    WeekRule(4, 1, 0, 10800);
    WeekRule(4, 1, 0, 7200);
  }

  lemma EasternOffsets()
    ensures PrintOffset(36000) == "-10" && PrintOffset(37800) == "-10:30" && PrintOffset(39600) == "-11"
    ensures PrintOffset(43200) == "-12" && PrintOffset(0) == "0"
  {
    hide Decimal, PrintTime;
    Hours(0);
    Hours(10);
    Hours(11);
    Hours(12);
    Digit(0);
    Tens(10);
    Tens(11);
    Tens(12);
  }

  lemma QuotedNames()
    ensures PrintAbbrev("+1030") == "<+1030>" && PrintAbbrev("+11") == "<+11>"
  {
    assert !IsAlpha("+1030"[0]) && !IsAlpha("+11"[0]);
  }

  lemma SydneyRead()
    ensures Parse("AEST-10AEDT,M10.1.0,M4.1.0/3") == Ok(SYDNEY)
  {
    hide Parse, PrintAbbrev, PrintOffset, PrintRule;
    OctoberToApril();
    EasternOffsets();
    Letters("AEST");
    Letters("AEDT");
    SydneyText();
    Printed(SYDNEY, "AEST", "-10", "AEDT", "", "M10.1.0", "M4.1.0/3");
  }

  lemma LordHoweRead()
    ensures Parse("<+1030>-10:30<+11>-11,M10.1.0,M4.1.0") == Ok(LORD_HOWE)
  {
    hide Parse, PrintAbbrev, PrintOffset, PrintRule;
    OctoberToApril();
    EasternOffsets();
    QuotedNames();
    LordHoweText();
    Printed(LORD_HOWE, "<+1030>", "-10:30", "<+11>", "-11", "M10.1.0", "M4.1.0");
  }

  lemma DayRuleParts()
    ensures PrintRule(N(300, 0)) == "300/0" && PrintRule(N(0, 0)) == "0/0" && PrintRule(N(365, 7200)) == "365"
    ensures PrintRule(J(365, 86400)) == "J365/24" && PrintRule(J(365, 88200)) == "J365/24:30"
    ensures PrintRule(J(100, 7200)) == "J100"
  {
    hide Decimal, PrintTime, PrintRuleTime;
    RuleTimes();
    Digit(0);
    Hundreds(100);
    Hundreds(300);
    Hundreds(365);
  }

  lemma DayRulesRead()
    ensures Parse("AAA-12BBB,300/0,0/0") == Ok(FAR_EAST)
    ensures Parse("AAA0BBB,0/0,365") == Ok(ALL_YEAR)
  {
    hide Parse, PrintAbbrev, PrintOffset, PrintRule;
    DayRuleParts();
    EasternOffsets();
    Letters("AAA");
    Letters("BBB");
    FarEastText();
    Printed(FAR_EAST, "AAA", "-12", "BBB", "", "300/0", "0/0");
    AllYearText();
    Printed(ALL_YEAR, "AAA", "0", "BBB", "", "0/0", "365");
  }

  lemma JulianRulesRead()
    ensures Parse("AAA0BBB,J365/24,J100") == Ok(MIDNIGHT)
    ensures Parse("AAA0BBB,J100,J365/24:30") == Ok(NEW_YEAR)
  {
    hide Parse, PrintAbbrev, PrintOffset, PrintRule;
    DayRuleParts();
    EasternOffsets();
    Letters("AAA");
    Letters("BBB");
    MidnightText();
    Printed(MIDNIGHT, "AAA", "0", "BBB", "", "J365/24", "J100");
    NewYearText();
    Printed(NEW_YEAR, "AAA", "0", "BBB", "", "J100", "J365/24:30");
  }
}
