/** For any zone with rules: whether its local times are classified as they are shown, and whether every
    instant is led back to, is decided by a few instants of each of 400 years. */
module PosixPeriod {
  import opened CalendarDate
  import opened CppArith
  import opened PosixZone
  import opened PosixLocal
  import opened Weekdays
  import Gregorian

  // ----- nothing changes between the transitions

  /** A transition of year `y`, or its beginning. */
  predicate IsTurn(z: Zone, y: int, u: int)
    requires ZoneOk(z)
  {
    u == Start(z, y) || u == End(z, y) || u == YearBegin(y)
  }

  ghost predicate NoTurn(z: Zone, u: int)
    requires ZoneOk(z)
  {
    forall y :: !IsTurn(z, y, u)
  }

  lemma YearSteady(t: int)
    requires forall y :: t != YearBegin(y)
    ensures YearOf(t) == YearOf(t - 1)
  {
    hide YearBegin, YearOf;
    YearOfSecond(t);
    assert t != YearBegin(YearOf(t));
    YearOfUnique(t - 1, YearOf(t));
  }

  lemma NoYearBegin(z: Zone, u: int)
    requires ZoneOk(z) && NoTurn(z, u)
    ensures forall y :: u != YearBegin(y)
  {
    hide YearBegin, Start, End;
    forall y ensures u != YearBegin(y) { assert !IsTurn(z, y, u); }
  }

  lemma DstSteady(z: Zone, u: int)
    requires ZoneOk(z) && NoTurn(z, u)
    ensures Dst(z, u) == Dst(z, u - 1)
  {
    hide YearBegin, Start, End, YearOf, NoTurn;
    NoYearBegin(z, u);
    YearSteady(u);
    var y := YearOf(u);
    Turns(z, u, y);
    Turns(z, u, y - 1);
    Turns(z, u, y + 1);
    assert RuleYear(z, u) == RuleYear(z, u - 1);
    Turns(z, u, RuleYear(z, u));
  }

  lemma Turns(z: Zone, u: int, y: int)
    requires ZoneOk(z) && NoTurn(z, u)
    ensures u != Start(z, y) && u != End(z, y)
  {
    hide YearBegin, Start, End;
    assert !IsTurn(z, y, u);
  }

  // ----- local times

  /** The instants of year `y` at which a classification can change, as the later candidate. */
  function Breaks(z: Zone, y: int): (r: seq<int>)
    requires ZoneOk(z)
    ensures |r| == 7
  {
    var h := Span(z);
    [Start(z, y), Start(z, y) + h, End(z, y), End(z, y) + h, YearBegin(y), YearBegin(y) + h, YearBegin(y) - Low(z)]
  }

  ghost predicate IsBreak(z: Zone, v: int)
    requires ZoneOk(z)
  {
    exists y :: v in Breaks(z, y)
  }

  /** No window of a transition begins or ends at `v`. */
  ghost predicate SameWindows(z: Zone, v: int)
    requires ZoneOk(z)
  {
    forall y :: InStart(z, v, y) == InStart(z, v - 1, y) && InEnd(z, v, y) == InEnd(z, v - 1, y)
  }

  lemma NoBreakAt(z: Zone, v: int, y: int)
    requires ZoneOk(z) && !IsBreak(z, v)
    ensures !IsTurn(z, y, v) && !IsTurn(z, y, v - Span(z)) && v + Low(z) != YearBegin(y)
    ensures InStart(z, v, y) == InStart(z, v - 1, y) && InEnd(z, v, y) == InEnd(z, v - 1, y)
  {
    hide YearBegin, Start, End, Low, Span;
    var b := Breaks(z, y);
    assert v !in b;
    assert b[0] != v && b[1] != v && b[2] != v && b[3] != v && b[4] != v && b[5] != v && b[6] != v;
  }

  lemma NoBreak(z: Zone, v: int)
    requires ZoneOk(z) && !IsBreak(z, v)
    ensures NoTurn(z, v) && NoTurn(z, v - Span(z)) && SameWindows(z, v) && forall y :: v + Low(z) != YearBegin(y)
  {
    hide YearBegin, Low, Span, InStart, InEnd, IsTurn, IsBreak;
    var u := v - Span(z);
    forall y ensures !IsTurn(z, y, v) { NoBreakAt(z, v, y); }
    forall y ensures !IsTurn(z, y, u) { NoBreakAt(z, v, y); }
    forall y ensures InStart(z, v, y) == InStart(z, v - 1, y) && InEnd(z, v, y) == InEnd(z, v - 1, y) { NoBreakAt(z, v, y); }
    forall y ensures v + Low(z) != YearBegin(y) { NoBreakAt(z, v, y); }
  }

  lemma MatchesSteady(z: Zone, v: int)
    requires ZoneOk(z) && !IsBreak(z, v)
    ensures Matches(z, v) == Matches(z, v - 1)
  {
    hide YearBegin, Start, End, Low, Span, Dst, InStart, InEnd, IsBreak, NoTurn, YearOf;
    NoBreak(z, v);
    YearSteady(v + Low(z));
    DstSteady(z, v);
    DstSteady(z, v - Span(z));
  }

  lemma {:induction false} MatchesFromBreak(z: Zone, v: int)
    requires ZoneOk(z) && forall b :: IsBreak(z, b) ==> Matches(z, b)
    ensures Matches(z, v)
    decreases v - YearBegin(YearOf(v))
  {
    hide YearBegin, Matches, IsBreak, YearOf;
    YearOfSecond(v);
    if !IsBreak(z, v) {
      var y := YearOf(v);
      assert v != YearBegin(y) by { YearBeginBreaks(z, y); }
      YearOfUnique(v - 1, y);
      MatchesFromBreak(z, v - 1);
      MatchesSteady(z, v);
    }
  }

  lemma YearBeginBreaks(z: Zone, y: int)
    requires ZoneOk(z)
    ensures IsBreak(z, YearBegin(y))
  {
    hide YearBegin, Start, End, Low, Span;
    assert Breaks(z, y)[4] == YearBegin(y);
    assert YearBegin(y) in Breaks(z, y);
  }

  // ----- instants

  /** The instants of year `y` at which it can change whether an instant is led back to. */
  function Points(z: Zone, y: int): (r: seq<int>)
    requires ZoneOk(z)
    ensures |r| == 11
  {
    var h := Span(z);
    [Start(z, y), Start(z, y) + h, Start(z, y) - h, End(z, y), End(z, y) + h, End(z, y) - h,
     YearBegin(y), YearBegin(y) + h, YearBegin(y) - h, YearBegin(y) - z.offset, YearBegin(y) - (z.offset + z.save)]
  }

  ghost predicate IsPoint(z: Zone, st: int)
    requires ZoneOk(z)
  {
    exists y :: st in Points(z, y)
  }

  lemma NoPointAt(z: Zone, st: int, y: int)
    requires ZoneOk(z) && !IsPoint(z, st)
    ensures !IsTurn(z, y, st) && !IsTurn(z, y, st - Span(z)) && !IsTurn(z, y, st + Span(z))
    ensures st + z.offset != YearBegin(y) && st + z.offset + z.save != YearBegin(y)
    ensures var v := st + Span(z);
            && InStart(z, st, y) == InStart(z, st - 1, y) && InEnd(z, st, y) == InEnd(z, st - 1, y)
            && InStart(z, v, y) == InStart(z, v - 1, y) && InEnd(z, v, y) == InEnd(z, v - 1, y)
  {
    hide YearBegin, Start, End, Span;
    var b := Points(z, y);
    assert st !in b;
    assert b[0] != st && b[1] != st && b[2] != st && b[3] != st && b[4] != st && b[5] != st;
    assert b[6] != st && b[7] != st && b[8] != st && b[9] != st && b[10] != st;
  }

  lemma NoPoint(z: Zone, st: int)
    requires ZoneOk(z) && !IsPoint(z, st)
    ensures NoTurn(z, st) && NoTurn(z, st - Span(z)) && NoTurn(z, st + Span(z))
    ensures SameWindows(z, st) && SameWindows(z, st + Span(z))
    ensures forall y :: st + z.offset != YearBegin(y) && st + z.offset + z.save != YearBegin(y)
  {
    hide YearBegin, Span, InStart, InEnd, IsTurn, IsPoint;
    var u, v := st - Span(z), st + Span(z);
    forall y ensures !IsTurn(z, y, st) { NoPointAt(z, st, y); }
    forall y ensures !IsTurn(z, y, u) { NoPointAt(z, st, y); }
    forall y ensures !IsTurn(z, y, v) { NoPointAt(z, st, y); }
    forall y ensures InStart(z, st, y) == InStart(z, st - 1, y) && InEnd(z, st, y) == InEnd(z, st - 1, y) { NoPointAt(z, st, y); }
    forall y ensures InStart(z, v, y) == InStart(z, v - 1, y) && InEnd(z, v, y) == InEnd(z, v - 1, y) { NoPointAt(z, st, y); }
    forall y ensures st + z.offset != YearBegin(y) && st + z.offset + z.save != YearBegin(y) { NoPointAt(z, st, y); }
  }

  lemma ShownOffset(z: Zone, st: int)
    requires ZoneOk(z) && z.save != 0
    ensures ToLocal(z, st) == st + (if Dst(z, st) then z.offset + z.save else z.offset)
  {
    hide Start, End, RuleYear;
  }

  lemma ReturnsSteady(z: Zone, st: int)
    requires ZoneOk(z) && z.save != 0 && !IsPoint(z, st)
    ensures Returns(z, st) == Returns(z, st - 1)
  {
    hide YearBegin, Start, End, Dst, InStart, InEnd, IsPoint, NoTurn, YearOf, Returns, GetLocalInfo, ToLocal;
    NoPoint(z, st);
    DstSteady(z, st);
    DstSteady(z, st - Span(z));
    DstSteady(z, st + Span(z));
    ShownOffset(z, st);
    ShownOffset(z, st - 1);
    var v := ToLocal(z, st) - Low(z);
    YearSteady(v + Low(z));
    assert v == st || v == st + Span(z);
    assert ToLocal(z, st - 1) == (v - 1) + Low(z);
    ReturnsIs(z, v, st);
    ReturnsIs(z, v - 1, st - 1);
    ResultIs(z, v);
    ResultIs(z, v - 1);
  }

  lemma {:induction false} ReturnsFromPoint(z: Zone, st: int)
    requires ZoneOk(z) && z.save != 0 && forall b :: IsPoint(z, b) ==> Returns(z, b)
    ensures Returns(z, st)
    decreases st - YearBegin(YearOf(st))
  {
    hide YearBegin, Returns, IsPoint, YearOf;
    YearOfSecond(st);
    if !IsPoint(z, st) {
      var y := YearOf(st);
      assert st != YearBegin(y) by { YearBeginIsPoint(z, y); }
      YearOfUnique(st - 1, y);
      ReturnsFromPoint(z, st - 1);
      ReturnsSteady(z, st);
    }
  }

  lemma YearBeginIsPoint(z: Zone, y: int)
    requires ZoneOk(z)
    ensures IsPoint(z, YearBegin(y))
  {
    hide YearBegin, Start, End, Span;
    assert Points(z, y)[6] == YearBegin(y);
    assert YearBegin(y) in Points(z, y);
  }

  // ----- everything repeats after 400 years

  const DAYS := 146097
  const PERIOD := DAYS * DAY

  lemma LeapOn(y: int)
    ensures Gregorian.IsLeap(y + 400) == Gregorian.IsLeap(y)
  {
    Gregorian.LeapIsFloorLeap(y);
    Gregorian.LeapIsFloorLeap(y + 400);
    hide Gregorian.IsLeap;
    Quotients(y);
  }

  lemma MarchOn(y: int)
    ensures Gregorian.MarchYearStart(y + 400) == Gregorian.MarchYearStart(y) + DAYS
  {
    Quotients(y);
  }

  lemma YearsOn(y: int)
    ensures Gregorian.YearStart(y + 400) == Gregorian.YearStart(y) + DAYS
  {
    DatesOn(y, 1, 1);
  }

  lemma Quotients(y: int)
    ensures (y + 400) / 4 == y / 4 + 100 && (y + 400) / 100 == y / 100 + 4 && (y + 400) / 400 == y / 400 + 1
    ensures (y + 400) % 4 == y % 4 && (y + 400) % 100 == y % 100 && (y + 400) % 400 == y % 400
  {
    ModUnique(y + 400, 4, y / 4 + 100, y % 4);
    ModUnique(y + 400, 100, y / 100 + 4, y % 100);
    ModUnique(y + 400, 400, y / 400 + 1, y % 400);
  }

  lemma DatesOn(y: int, m: int, d: int)
    requires 1 <= m <= 12
    ensures Gregorian.ToDays(Date(y + 400, m, d)) == Gregorian.ToDays(Date(y, m, d)) + DAYS
    ensures Gregorian.LastDay(y + 400, m) == Gregorian.LastDay(y, m)
  {
    hide Gregorian.ToDays, Gregorian.IsLeap, Gregorian.MarchYearStart, Gregorian.YearStart;
    Gregorian.ToDaysIsCivilDays(Date(y, m, d));
    Gregorian.ToDaysIsCivilDays(Date(y + 400, m, d));
    MarchOn(y);
    MarchOn(y - 1);
    LeapOn(y);
  }

  lemma WeekdaysOn(dp: int)
    ensures DayOfWeek(dp + DAYS) == DayOfWeek(dp)
  {
    ModUnique(dp + DAYS + 4, 7, (dp + 4) / 7 + 20871, (dp + 4) % 7);
  }

  lemma RuleOn(r: Rule, y: int)
    requires RuleOk(r)
    ensures RuleAt(r, y + 400) == RuleAt(r, y) + PERIOD
  {
    hide Gregorian.ToDays, Gregorian.IsLeap, Gregorian.LastDay, Gregorian.MarchYearStart, Gregorian.YearStart, Difference, DayOfWeek;
    LeapOn(y);
    match r
    case J(_, _) => DatesOn(y, 1, 0);
    case N(_, _) => DatesOn(y, 1, 1);
    case M(m, _, _, _) =>
      DatesOn(y, m, 1);
      WeekdaysOn(Gregorian.ToDays(Date(y, m, 1)));
      DatesOn(y, m, Gregorian.LastDay(y, m));
      WeekdaysOn(Gregorian.ToDays(Date(y, m, Gregorian.LastDay(y, m))));
  }

  lemma TurnsOn(z: Zone, y: int)
    requires ZoneOk(z)
    ensures Start(z, y + 400) == Start(z, y) + PERIOD && End(z, y + 400) == End(z, y) + PERIOD
    ensures YearBegin(y + 400) == YearBegin(y) + PERIOD
  {
    hide RuleAt, RuleOk, Gregorian.YearStart;
    RuleOn(z.start, y);
    RuleOn(z.end, y);
    YearsOn(y);
  }

  lemma YearOfOn(z: Zone, t: int)
    requires ZoneOk(z)
    ensures YearOf(t + PERIOD) == YearOf(t) + 400
  {
    hide YearOf, YearBegin, Start, End;
    var y := YearOf(t);
    YearOfSecond(t);
    TurnsOn(z, y);
    TurnsOn(z, y + 1);
    YearOfUnique(t + PERIOD, y + 400);
  }

  lemma DstOn(z: Zone, u: int)
    requires ZoneOk(z)
    ensures Dst(z, u + PERIOD) == Dst(z, u)
  {
    hide YearOf, YearBegin, Start, End;
    var y := YearOf(u);
    YearOfOn(z, u);
    TurnsOn(z, y);
    TurnsOn(z, y - 1);
    TurnsOn(z, y + 1);
    assert RuleYear(z, u + PERIOD) == RuleYear(z, u) + 400;
    TurnsOn(z, RuleYear(z, u));
  }

  lemma WindowsOn(z: Zone, v: int, y: int)
    requires ZoneOk(z)
    ensures InStart(z, v + PERIOD, y + 400) == InStart(z, v, y) && InEnd(z, v + PERIOD, y + 400) == InEnd(z, v, y)
  {
    hide YearBegin, Start, End, Span;
    TurnsOn(z, y);
  }

  lemma MatchesOn(z: Zone, v: int)
    requires ZoneOk(z)
    ensures Matches(z, v + PERIOD) == Matches(z, v)
  {
    hide YearOf, Dst, InStart, InEnd, Low, Span;
    YearOfOn(z, v + Low(z));
    WindowsOn(z, v, YearOf(v + Low(z)));
    DstOn(z, v);
    DstOn(z, v - Span(z));
    assert v + PERIOD + Low(z) == v + Low(z) + PERIOD && v + PERIOD - Span(z) == v - Span(z) + PERIOD;
  }

  lemma ReturnsOn(z: Zone, st: int)
    requires ZoneOk(z) && z.save != 0
    ensures Returns(z, st + PERIOD) == Returns(z, st)
  {
    hide YearOf, Dst, InStart, InEnd, Low, Span, Returns, ToLocal, GetLocalInfo;
    ShownOffset(z, st);
    ShownOffset(z, st + PERIOD);
    DstOn(z, st);
    var v := ToLocal(z, st) - Low(z);
    assert ToLocal(z, st + PERIOD) == v + PERIOD + Low(z);
    ReturnsIs(z, v, st);
    ReturnsIs(z, v + PERIOD, st + PERIOD);
    ResultIs(z, v);
    ResultIs(z, v + PERIOD);
    YearOfOn(z, v + Low(z));
    WindowsOn(z, v, YearOf(v + Low(z)));
    DstOn(z, v);
    DstOn(z, v - Span(z));
    assert v + PERIOD + Low(z) == v + Low(z) + PERIOD && v + PERIOD - Span(z) == v - Span(z) + PERIOD;
  }

  // ----- the decisions

  /** The seven local times of a year are classified by its transitions as daylight time begins and ends. */
  predicate TimesOk(z: Zone, y: int)
    requires ZoneOk(z)
  {
    forall i :: 0 <= i < 7 ==> Matches(z, Breaks(z, y)[i])
  }

  /** The eleven instants of a year are led back to. */
  predicate InstantsOk(z: Zone, y: int)
    requires ZoneOk(z)
  {
    forall i :: 0 <= i < 11 ==> Returns(z, Points(z, y)[i])
  }

  lemma BreaksOn(z: Zone, y: int, i: nat)
    requires ZoneOk(z) && i < 7
    ensures Breaks(z, y + 400)[i] == Breaks(z, y)[i] + PERIOD
    ensures Matches(z, Breaks(z, y + 400)[i]) == Matches(z, Breaks(z, y)[i])
  {
    hide Matches, Start, End, YearBegin, Low, Span;
    TurnsOn(z, y);
    MatchesOn(z, Breaks(z, y)[i]);
  }

  lemma PointsOn(z: Zone, y: int, i: nat)
    requires ZoneOk(z) && z.save != 0 && i < 11
    ensures Points(z, y + 400)[i] == Points(z, y)[i] + PERIOD
    ensures Returns(z, Points(z, y + 400)[i]) == Returns(z, Points(z, y)[i])
  {
    hide Returns, Start, End, YearBegin, Span;
    TurnsOn(z, y);
    ReturnsOn(z, Points(z, y)[i]);
  }

  lemma TimesOn(z: Zone, y: int)
    requires ZoneOk(z)
    ensures TimesOk(z, y + 400) == TimesOk(z, y)
  {
    hide Matches, Breaks;
    var n := y + 400;
    if TimesOk(z, y) {
      forall i | 0 <= i < 7 ensures Matches(z, Breaks(z, n)[i]) { BreaksOn(z, y, i); }
    }
    if TimesOk(z, y + 400) {
      forall i | 0 <= i < 7 ensures Matches(z, Breaks(z, y)[i]) { BreaksOn(z, y, i); }
    }
  }

  lemma InstantsOn(z: Zone, y: int)
    requires ZoneOk(z) && z.save != 0
    ensures InstantsOk(z, y + 400) == InstantsOk(z, y)
  {
    hide Returns, Points;
    var n := y + 400;
    if InstantsOk(z, y) {
      forall i | 0 <= i < 11 ensures Returns(z, Points(z, n)[i]) { PointsOn(z, y, i); }
    }
    if InstantsOk(z, y + 400) {
      forall i | 0 <= i < 11 ensures Returns(z, Points(z, y)[i]) { PointsOn(z, y, i); }
    }
  }

  lemma {:induction false} TimesOfAllYears(z: Zone, y: int)
    requires ZoneOk(z) && forall i :: 0 <= i < 400 ==> TimesOk(z, i)
    ensures TimesOk(z, y)
    decreases if y < 0 then 1000 - y else y
  {
    hide TimesOk;
    if y < 0 {
      TimesOn(z, y);
      TimesOfAllYears(z, y + 400);
    } else if y >= 400 {
      TimesOn(z, y - 400);
      TimesOfAllYears(z, y - 400);
    }
  }

  lemma {:induction false} InstantsOfAllYears(z: Zone, y: int)
    requires ZoneOk(z) && z.save != 0 && forall i :: 0 <= i < 400 ==> InstantsOk(z, i)
    ensures InstantsOk(z, y)
    decreases if y < 0 then 1000 - y else y
  {
    hide InstantsOk;
    if y < 0 {
      InstantsOn(z, y);
      InstantsOfAllYears(z, y + 400);
    } else if y >= 400 {
      InstantsOn(z, y - 400);
      InstantsOfAllYears(z, y - 400);
    }
  }

  /** In any zone with rules all local times are classified as they are shown exactly if there is no
      saving, or those at seven instants of each of 400 years are. */
  lemma LocalTimesDecided(z: Zone)
    requires ZoneOk(z)
    ensures (forall tp :: Classified(z, tp)) <==> z.save == 0 || forall y :: 0 <= y < 400 ==> TimesOk(z, y)
  {
    hide Classified, Matches, Low;
    if z.save == 0 {
      forall tp ensures Classified(z, tp) { NoSaving(z, tp); }
    } else {
      if forall y :: 0 <= y < 400 ==> TimesOk(z, y) {
        forall tp ensures Classified(z, tp) {
          TimesMatch(z, tp - Low(z));
          ClassifiedIffMatches(z, tp - Low(z));
        }
      }
      if forall tp :: Classified(z, tp) {
        forall v ensures Matches(z, v) {
          assert Classified(z, v + Low(z));
          ClassifiedIffMatches(z, v);
        }
      }
    }
  }

  lemma TimesMatch(z: Zone, v: int)
    requires ZoneOk(z) && forall y :: 0 <= y < 400 ==> TimesOk(z, y)
    ensures Matches(z, v)
  {
    hide Matches, Start, End, YearBegin, Low, Span;
    forall b | IsBreak(z, b) ensures Matches(z, b) {
      var y :| b in Breaks(z, y);
      TimesOfAllYears(z, y);
      var i :| 0 <= i < 7 && Breaks(z, y)[i] == b;
    }
    MatchesFromBreak(z, v);
  }

  /** In any zone with rules every instant is led back to exactly if there is no saving, or eleven
      instants of each of 400 years are. */
  lemma InstantsDecided(z: Zone)
    requires ZoneOk(z)
    ensures (forall st :: Returns(z, st)) <==> z.save == 0 || forall y :: 0 <= y < 400 ==> InstantsOk(z, y)
  {
    hide Returns, Start, End, YearBegin, Span;
    if z.save == 0 {
      forall st ensures Returns(z, st) { ReturnsWithoutSaving(z, st); }
    } else if forall y :: 0 <= y < 400 ==> InstantsOk(z, y) {
      forall b | IsPoint(z, b) ensures Returns(z, b) {
        var y :| b in Points(z, y);
        InstantsOfAllYears(z, y);
        var i :| 0 <= i < 11 && Points(z, y)[i] == b;
      }
      forall st ensures Returns(z, st) { ReturnsFromPoint(z, st); }
    }
  }
}
