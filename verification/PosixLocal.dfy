/** Local times of POSIX zones: how `Include/date/ptz.h` classifies what a wall clock shows, and when
    that is right. */
module PosixLocal {
  import opened PosixZone
  import Gregorian

  datatype LocalResult = Unique | Nonexistent | Ambiguous

  datatype LocalInfo = LocalInfo(result: LocalResult, first: Info, second: Info)

  const EMPTY := Info(0, 0, 0, 0, "")

  function GetLocalInfo(z: Zone, tp: int): LocalInfo
    requires z.start.Off? <==> z.end.Off?
  {
    if z.start.Off? then LocalInfo(Unique, ConstantOffset(z), EMPTY)
    else
      var y := YearOf(tp);
      var start := Start(z, y);
      var end := End(z, y);
      var utcs := tp - z.offset;
      var utcd := tp - (z.offset + z.save);
      var northern := start <= end;
      if (utcs < start) != (utcd < start) then
        LocalInfo(if z.save > 0 then Nonexistent else Ambiguous,
                  Standard(z, if northern then End(z, y - 1) else end, start),
                  Daylight(z, start, if northern then end else End(z, y + 1)))
      else if (utcs < end) != (utcd < end) then
        LocalInfo(if z.save > 0 then Ambiguous else Nonexistent,
                  Daylight(z, if northern then start else Start(z, y - 1), end),
                  Standard(z, end, if northern then Start(z, y + 1) else start))
      else
        LocalInfo(Unique, GetInfo(z, utcs), EMPTY)
  }

  datatype SysResult = Sys(st: int) | NonexistentLocalTime | AmbiguousLocalTime

  function ToSys(z: Zone, tp: int): SysResult
    requires z.start.Off? <==> z.end.Off?
  {
    var i := GetLocalInfo(z, tp);
    match i.result
    case Nonexistent => NonexistentLocalTime
    case Ambiguous => AmbiguousLocalTime
    case Unique => Sys(tp - i.first.offset)
  }

  datatype Choose = Earliest | Latest

  function ToSysChoose(z: Zone, tp: int, c: Choose): int
    requires z.start.Off? <==> z.end.Off?
  {
    var i := GetLocalInfo(z, tp);
    if i.result == Nonexistent then i.first.end
    else if i.result == Ambiguous && c == Latest then tp - i.second.offset
    else tp - i.first.offset
  }

  function Low(z: Zone): int {
    if z.save < 0 then z.offset + z.save else z.offset
  }

  function High(z: Zone): int {
    if z.save < 0 then z.offset else z.offset + z.save
  }

  /** What the wall clock shows around each transition stays inside one local year. */
  ghost predicate AwayFromYearEnds(z: Zone)
    requires ZoneOk(z)
  {
    forall y :: Away(z, y)
  }

  predicate Away(z: Zone, y: int)
    requires ZoneOk(z)
  {
    && YearBegin(y) <= Start(z, y) + Low(z) && Start(z, y) + High(z) <= YearBegin(y + 1)
    && YearBegin(y) <= End(z, y) + Low(z) && End(z, y) + High(z) <= YearBegin(y + 1)
  }

  ghost predicate LongPeriods(z: Zone)
    requires ZoneOk(z)
  {
    forall y :: Long(z, y)
  }

  predicate Long(z: Zone, y: int)
    requires ZoneOk(z)
  {
    End(z, y) - Start(z, y) >= High(z) - Low(z) || Start(z, y) - End(z, y) >= High(z) - Low(z)
  }

  ghost predicate Regular(z: Zone)
    requires ZoneOk(z)
  {
    AwayFromYearEnds(z) && LongPeriods(z) && (Northern(z) || (Southern(z) && InOwnYear(z)))
  }

  lemma AwayMeansYearsApart(z: Zone)
    requires ZoneOk(z) && AwayFromYearEnds(z)
    ensures YearsApart(z)
  {
    hide Start, End, YearBegin;
    forall y ensures End(z, y) <= Start(z, y + 1) {
      assert Away(z, y) && Away(z, y + 1);
    }
  }

  /** A second that the transitions of the years before and after surround is told by year `y`. */
  lemma InfoNear(z: Zone, u: int, y: int)
    requires ZoneOk(z) && Regular(z)
    requires Start(z, y - 1) <= u && End(z, y - 1) <= u && u < Start(z, y + 1) && u < End(z, y + 1)
    ensures GetInfo(z, u) == InfoInYear(z, u, y)
  {
    hide Start, End, YearBegin, GetInfo, Low, High, AwayFromYearEnds, LongPeriods;
    if Northern(z) {
      AwayMeansYearsApart(z);
      NorthernInfo(z, u, y);
    } else {
      SouthernInfo(z, u, y);
      SouthernInfo(z, u, y - 1);
      assert End(z, y) < Start(z, y);
    }
  }

  /** The two candidates for a local time are told by the transitions of its local year. */
  lemma Candidates(z: Zone, tp: int)
    requires ZoneOk(z) && Regular(z)
    ensures var y := YearOf(tp);
            && GetInfo(z, tp - z.offset) == InfoInYear(z, tp - z.offset, y)
            && GetInfo(z, tp - (z.offset + z.save)) == InfoInYear(z, tp - (z.offset + z.save), y)
  {
    hide Start, End, YearBegin, GetInfo, InfoInYear, YearOf;
    var y := YearOf(tp);
    YearOfSecond(tp);
    assert Away(z, y - 1) && Away(z, y + 1);
    InfoNear(z, tp - z.offset, y);
    InfoNear(z, tp - (z.offset + z.save), y);
  }

  // ----- what a clock shows

  predicate ShowsAs(z: Zone, st: int, tp: int)
    requires ZoneOk(z)
  {
    ToLocal(z, st) == tp
  }

  /** The classification of a local time counts the instants that show it, and the conversions
      back return them. */
  ghost predicate Classified(z: Zone, tp: int)
    requires ZoneOk(z)
  {
    match GetLocalInfo(z, tp).result
    case Nonexistent =>
      && (forall st :: !ShowsAs(z, st, tp))
      && ToSysChoose(z, tp, Earliest) == ToSysChoose(z, tp, Latest)
    case Unique =>
      && ToSys(z, tp).Sys?
      && (forall st :: ShowsAs(z, st, tp) <==> st == ToSys(z, tp).st)
    case Ambiguous =>
      && ToSysChoose(z, tp, Earliest) < ToSysChoose(z, tp, Latest)
      && (forall st :: ShowsAs(z, st, tp) <==> st == ToSysChoose(z, tp, Earliest) || st == ToSysChoose(z, tp, Latest))
  }

  /** What a clock shows at `st` leads back to `st`: at once, or as one of the two choices. */
  predicate Returns(z: Zone, st: int)
    requires ZoneOk(z)
  {
    var tp := ToLocal(z, st);
    match GetLocalInfo(z, tp).result
    case Nonexistent => false
    case Unique => ToSys(z, tp) == Sys(st)
    case Ambiguous => st == ToSysChoose(z, tp, Earliest) || st == ToSysChoose(z, tp, Latest)
  }

  /** `get_info` tells daylight time. */
  predicate Dst(z: Zone, u: int)
    requires ZoneOk(z)
  {
    GetInfo(z, u).offset != z.offset
  }

  lemma Shown(z: Zone, tp: int)
    requires ZoneOk(z) && z.save != 0
    ensures ShowsAs(z, tp - z.offset, tp) <==> !Dst(z, tp - z.offset)
    ensures ShowsAs(z, tp - (z.offset + z.save), tp) <==> Dst(z, tp - (z.offset + z.save))
    ensures forall st :: ShowsAs(z, st, tp) ==> st == tp - z.offset || st == tp - (z.offset + z.save)
  {
    hide Start, End, RuleYear;
  }

  // ----- the classification, seen from the later of the two candidates

  function Span(z: Zone): int {
    High(z) - Low(z)
  }

  predicate Up(z: Zone, v: int)
    requires ZoneOk(z)
  {
    Dst(z, v) && !Dst(z, v - Span(z))
  }

  predicate Down(z: Zone, v: int)
    requires ZoneOk(z)
  {
    !Dst(z, v) && Dst(z, v - Span(z))
  }

  predicate InStart(z: Zone, v: int, y: int)
    requires ZoneOk(z)
  {
    Start(z, y) <= v < Start(z, y) + Span(z)
  }

  predicate InEnd(z: Zone, v: int, y: int)
    requires ZoneOk(z)
  {
    End(z, y) <= v < End(z, y) + Span(z)
  }

  /** Daylight time begins or ends between the candidates exactly if the transitions of the local
      year say so. */
  predicate Matches(z: Zone, v: int)
    requires ZoneOk(z)
  {
    var y := YearOf(v + Low(z));
    if InStart(z, v, y) then Up(z, v)
    else if InEnd(z, v, y) then Down(z, v)
    else Dst(z, v) == Dst(z, v - Span(z))
  }

  lemma ResultIs(z: Zone, v: int)
    requires ZoneOk(z) && z.save != 0
    ensures var y := YearOf(v + Low(z));
            GetLocalInfo(z, v + Low(z)).result
            == if InStart(z, v, y) then (if z.save > 0 then Nonexistent else Ambiguous)
               else if InEnd(z, v, y) then (if z.save > 0 then Ambiguous else Nonexistent)
               else Unique
  {
    hide Start, End, GetInfo, YearOf;
  }

  lemma ChoicesAre(z: Zone, tp: int)
    requires ZoneOk(z) && z.save != 0
    ensures match GetLocalInfo(z, tp).result
            case Nonexistent => ToSysChoose(z, tp, Earliest) == ToSysChoose(z, tp, Latest)
            case Unique => ToSys(z, tp) == Sys(if Dst(z, tp - z.offset) then tp - (z.offset + z.save) else tp - z.offset)
            case Ambiguous =>
              && ToSysChoose(z, tp, Earliest) == tp - High(z) && ToSysChoose(z, tp, Latest) == tp - Low(z)
  {
    hide Start, End, YearOf, RuleYear;
  }

  lemma ClassifiedIffMatches(z: Zone, v: int)
    requires ZoneOk(z) && z.save != 0
    ensures Classified(z, v + Low(z)) <==> Matches(z, v)
  {
    hide GetLocalInfo, ToSys, ToSysChoose, ShowsAs, Dst, InStart, InEnd, YearOf;
    var tp := v + Low(z);
    Shown(z, tp);
    ResultIs(z, v);
    ChoicesAre(z, tp);
  }

  // ----- regular zones

  lemma RegularMatches(z: Zone, v: int)
    requires ZoneOk(z) && Regular(z) && z.save != 0
    ensures Matches(z, v)
  {
    hide Start, End, YearBegin, GetInfo, YearOf;
    var tp := v + Low(z);
    var y := YearOf(tp);
    Candidates(z, tp);
    assert Long(z, y);
  }

  /** Without a saving every local time is shown once. */
  lemma NoSaving(z: Zone, tp: int)
    requires ZoneOk(z) && z.save == 0
    ensures Classified(z, tp)
  {
    hide Start, End, YearOf, RuleYear;
  }

  lemma LocalTimes(z: Zone, tp: int)
    requires ZoneOk(z) && Regular(z)
    ensures Classified(z, tp)
  {
    hide Classified, Matches, Regular;
    if z.save == 0 {
      NoSaving(z, tp);
    } else {
      RegularMatches(z, tp - Low(z));
      ClassifiedIffMatches(z, tp - Low(z));
    }
  }

  /** Whatever the zone: an instant is led back to if the local time it shows is classified as it is shown. */
  lemma RoundTrip(z: Zone, st: int)
    requires ZoneOk(z) && Classified(z, ToLocal(z, st))
    ensures Returns(z, st)
  {
    hide ToLocal, GetLocalInfo, ToSysChoose;
    assert ShowsAs(z, st, ToLocal(z, st));
  }

  // ----- no other zones are classified exactly

  /** Daylight time begins in every year, ends later and before it begins again, in the same year
      (`k == 0`, northern) or in the next (`k == 1`, southern), where `get_info` tells it right. */
  ghost predicate Orderly(z: Zone, k: int)
    requires ZoneOk(z)
  {
    && (k == 0 || (k == 1 && Southern(z) && InOwnYear(z)))
    && forall y :: InTurn(z, k, y)
  }

  predicate InTurn(z: Zone, k: int, y: int)
    requires ZoneOk(z)
  {
    Start(z, y) < End(z, y + k) < Start(z, y + 1)
  }

  lemma TellsNorthern(z: Zone, y: int, u: int)
    requires ZoneOk(z) && Orderly(z, 0) && z.save != 0
    ensures Start(z, y) <= u < End(z, y) ==> Dst(z, u)
    ensures End(z, y) <= u < Start(z, y + 1) ==> !Dst(z, u)
  {
    hide Start, End, GetInfo;
    NorthernOrder(z);
    assert InTurn(z, 0, y) && InTurn(z, 0, y - 1);
    if Start(z, y) <= u < Start(z, y + 1) {
      NorthernInfo(z, u, y);
    }
  }

  lemma NorthernOrder(z: Zone)
    requires ZoneOk(z) && Orderly(z, 0)
    ensures Northern(z) && YearsApart(z)
  {
    hide Start, End;
    forall y ensures Start(z, y) <= End(z, y) <= Start(z, y + 1) {
      assert InTurn(z, 0, y);
    }
  }

  lemma TellsSouthern(z: Zone, y: int, u: int)
    requires ZoneOk(z) && Orderly(z, 1) && z.save != 0
    ensures Start(z, y) <= u < End(z, y + 1) ==> Dst(z, u)
    ensures End(z, y + 1) <= u < Start(z, y + 1) ==> !Dst(z, u)
  {
    hide Start, End, GetInfo, Southern, InOwnYear;
    SouthernInfo(z, u, y);
    SouthernInfo(z, u, y + 1);
  }

  lemma Tells(z: Zone, k: int, y: int, u: int)
    requires ZoneOk(z) && Orderly(z, k) && z.save != 0
    ensures Start(z, y) < End(z, y + k) < Start(z, y + 1)
    ensures Start(z, y) <= u < End(z, y + k) ==> Dst(z, u)
    ensures End(z, y + k) <= u < Start(z, y + 1) ==> !Dst(z, u)
  {
    hide Start, End, Dst, Southern, InOwnYear;
    assert InTurn(z, k, y);
    if k == 0 {
      TellsNorthern(z, y, u);
    } else {
      TellsSouthern(z, y, u);
    }
  }

  lemma RecordsNorthern(z: Zone, y: int)
    requires ZoneOk(z) && Orderly(z, 0)
    ensures GetInfo(z, Start(z, y) - 1) == Standard(z, End(z, y - 1), Start(z, y))
    ensures GetInfo(z, Start(z, y)) == Daylight(z, Start(z, y), End(z, y)) == GetInfo(z, End(z, y) - 1)
    ensures GetInfo(z, End(z, y)) == Standard(z, End(z, y), Start(z, y + 1)) && Start(z, y) < End(z, y)
  {
    hide Start, End, GetInfo;
    NorthernOrder(z);
    assert InTurn(z, 0, y) && InTurn(z, 0, y - 1);
    NorthernInfo(z, Start(z, y) - 1, y);
    NorthernInfo(z, Start(z, y), y);
    NorthernInfo(z, End(z, y) - 1, y);
    NorthernInfo(z, End(z, y), y);
  }

  lemma RecordsSouthern(z: Zone, y: int)
    requires ZoneOk(z) && Orderly(z, 1)
    ensures GetInfo(z, Start(z, y) - 1) == Standard(z, End(z, y), Start(z, y)) == GetInfo(z, End(z, y))
    ensures GetInfo(z, Start(z, y)) == Daylight(z, Start(z, y), End(z, y + 1))
    ensures GetInfo(z, End(z, y) - 1) == Daylight(z, Start(z, y - 1), End(z, y)) && End(z, y) < Start(z, y)
  {
    hide Start, End, GetInfo, InOwnYear;
    assert InTurn(z, 1, y) && InTurn(z, 1, y - 1);
    SouthernInfo(z, Start(z, y) - 1, y);
    SouthernInfo(z, Start(z, y), y);
    SouthernInfo(z, End(z, y) - 1, y - 1);
    SouthernInfo(z, End(z, y), y);
  }

  /** A clock of the zone is about to show the time of the rule when daylight time begins or ends. */
  lemma ClockMeetsRules(z: Zone, k: int, y: int)
    requires ZoneOk(z) && Orderly(z, k)
    ensures ToLocal(z, Start(z, y) - 1) == RuleAt(z.start, y) - 1
    ensures ToLocal(z, End(z, y) - 1) == RuleAt(z.end, y) - 1
  {
    hide RuleAt, GetInfo, Orderly;
    KindOf(z, k);
    if k == 0 {
      RecordsNorthern(z, y);
    } else {
      RecordsSouthern(z, y);
    }
  }

  /** From the beginning of daylight time to its end, and from there to its next beginning. */
  lemma InfoInTurn(z: Zone, k: int, y: int, st: int)
    requires ZoneOk(z) && Orderly(z, k)
    ensures var i := GetInfo(z, st);
            && (Start(z, y) <= st < End(z, y + k) ==>
                  i.begin == Start(z, y) && i.end == End(z, y + k) && InDaylight(z, i))
            && (End(z, y + k) <= st < Start(z, y + 1) ==>
                  i.begin == End(z, y + k) && i.end == Start(z, y + 1)
                  && i.offset == z.offset && i.save == 0 && i.abbrev == z.std)
  {
    hide Start, End, GetInfo, Southern, InOwnYear;
    if k == 0 {
      NorthernOrder(z);
      assert InTurn(z, 0, y) && InTurn(z, 0, y - 1);
      if Start(z, y) <= st < Start(z, y + 1) {
        NorthernInfo(z, st, y);
      }
    } else {
      SouthernInfo(z, st, y);
      SouthernInfo(z, st, y + 1);
    }
  }

  /** At a gap or an overlap the two reported intervals are those of `get_info` just before and
      just after the transition. */
  lemma TransitionRecords(z: Zone, k: int, tp: int)
    requires ZoneOk(z) && Orderly(z, k) && GetLocalInfo(z, tp).result != Unique
    ensures var i := GetLocalInfo(z, tp);
            && i.first == GetInfo(z, i.first.end - 1) && i.second == GetInfo(z, i.first.end)
            && i.first.end == i.second.begin
            && (i.result == Nonexistent ==> forall c :: ToSysChoose(z, tp, c) == i.first.end)
  {
    hide Start, End, GetInfo, YearOf, Orderly;
    var y := YearOf(tp);
    assert k == 0 || k == 1 by { KindOf(z, k); }
    if k == 0 {
      RecordsNorthern(z, y);
    } else {
      RecordsSouthern(z, y);
    }
  }

  lemma KindOf(z: Zone, k: int)
    requires ZoneOk(z) && Orderly(z, k)
    ensures k == 0 || k == 1
  {}

  lemma SpanBound(z: Zone)
    requires ZoneOk(z)
    ensures 0 <= Span(z) < 2 * OFFSET_LIMIT
  {}

  lemma Far(z: Zone, k: int, y: int)
    requires ZoneOk(z) && Orderly(z, k)
    ensures Start(z, y) + 300 * DAY <= Start(z, y + 1) && End(z, y + k - 1) + 300 * DAY <= End(z, y + k)
    ensures End(z, y + k) + 300 * DAY <= End(z, y + k + 1) && 0 <= k <= 1
  {
    hide Start, End, YearBegin, InTurn;
    TransitionBounds(z, y);
    TransitionBounds(z, y + k);
    TransitionBounds(z, y + k - 1);
  }

  lemma OneWindow(z: Zone, v: int, i: int, j: int)
    requires ZoneOk(z)
    ensures InStart(z, v, i) && InStart(z, v, j) ==> i == j
    ensures InEnd(z, v, i) && InEnd(z, v, j) ==> i == j
  {
    hide Start, End, YearBegin;
    SpanBound(z);
    TransitionBounds(z, i);
    TransitionBounds(z, j);
    if i < j {
      TransitionOrder(z, i + 1, j);
    } else if j < i {
      TransitionOrder(z, j + 1, i);
    }
  }

  lemma YearOfMonotone(s: int, t: int)
    requires s <= t
    ensures YearOf(s) <= YearOf(t)
  {
    hide YearOf, YearBegin;
    YearOfSecond(s);
    YearOfSecond(t);
    if YearOf(t) < YearOf(s) {
      YearBeginOrder(YearOf(t) + 1, YearOf(s));
    }
  }

  lemma {:induction false} YearBeginOrder(i: int, j: int)
    requires i <= j
    ensures YearBegin(i) <= YearBegin(j)
    decreases j - i
  {
    hide YearBegin;
    if i < j {
      YearBeginOrder(i, j - 1);
      YearBeginStep(j - 1);
    }
  }

  /** A daylight time shorter than the saving is misjudged at one of three instants. */
  lemma LongDays(z: Zone, k: int, y: int)
    requires ZoneOk(z) && Orderly(z, k) && z.save != 0 && forall v :: Matches(z, v)
    ensures End(z, y + k) - Start(z, y) >= Span(z)
  {
    hide Start, End, YearOf, Dst, Orderly, Low, Span;
    var s, e, h := Start(z, y), End(z, y + k), Span(z);
    SpanBound(z);
    Far(z, k, y);
    Tells(z, k, y, s);
    Tells(z, k, y - 1, s - h);
    Tells(z, k, y, e);
    Tells(z, k, y - 1, e - h);
    Tells(z, k, y, s + h);
    if e - s < h {
      assert Matches(z, s) && Matches(z, e) && Matches(z, s + h);
      var a, b, c := YearOf(s + Low(z)), YearOf(e + Low(z)), YearOf(s + h + Low(z));
      OneWindow(z, s, a, y);
      OneWindow(z, s + h, c, y + k);
      YearOfMonotone(s + Low(z), e + Low(z));
      YearOfMonotone(e + Low(z), s + h + Low(z));
    }
  }

  /** Likewise for standard time. */
  lemma LongNights(z: Zone, k: int, y: int)
    requires ZoneOk(z) && Orderly(z, k) && z.save != 0 && forall v :: Matches(z, v)
    ensures Start(z, y + 1) - End(z, y + k) >= Span(z)
  {
    hide Start, End, YearOf, Dst, Orderly, Low, Span;
    var e, s, h := End(z, y + k), Start(z, y + 1), Span(z);
    SpanBound(z);
    Far(z, k, y);
    Tells(z, k, y, e);
    Tells(z, k, y, e - h);
    Tells(z, k, y + 1, s);
    Tells(z, k, y, s - h);
    Tells(z, k, y + 1, e + h);
    if s - e < h {
      assert Matches(z, e) && Matches(z, s) && Matches(z, e + h);
      var a, b, c := YearOf(e + Low(z)), YearOf(s + Low(z)), YearOf(e + h + Low(z));
      OneWindow(z, e, a, y + k);
      OneWindow(z, e + h, c, y + 1);
      OneWindow(z, s, b, y + 1);
      OneWindow(z, s, b, y + k);
      YearOfMonotone(e + Low(z), s + Low(z));
      YearOfMonotone(s + Low(z), e + h + Low(z));
    }
  }

  /** The periods are at least as long as the saving. */
  ghost predicate Spread(z: Zone, k: int)
    requires ZoneOk(z)
  {
    forall y :: SpreadAt(z, k, y)
  }

  predicate SpreadAt(z: Zone, k: int, y: int)
    requires ZoneOk(z)
  {
    End(z, y + k) - Start(z, y) >= Span(z) && Start(z, y + 1) - End(z, y + k) >= Span(z)
  }

  lemma Changes(z: Zone, k: int, y: int, v: int)
    requires ZoneOk(z) && Orderly(z, k) && z.save != 0 && Spread(z, k)
    ensures InStart(z, v, y) ==> Up(z, v) && !InEnd(z, v, y)
    ensures InEnd(z, v, y + k) ==> Down(z, v) && !InStart(z, v, y + k)
  {
    hide Start, End, YearOf, Dst, Orderly, Span;
    SpanBound(z);
    assert SpreadAt(z, k, y) && SpreadAt(z, k, y - 1) && SpreadAt(z, k, y + 1);
    Far(z, k, y);
    Tells(z, k, y, v);
    Tells(z, k, y - 1, v - Span(z));
    Tells(z, k, y, v - Span(z));
  }

  lemma StartInOwnYear(z: Zone, k: int, y: int)
    requires ZoneOk(z) && Orderly(z, k) && z.save != 0 && Spread(z, k) && forall v :: Matches(z, v)
    ensures YearBegin(y) <= Start(z, y) + Low(z) && Start(z, y) + High(z) <= YearBegin(y + 1)
  {
    hide Start, End, YearOf, Dst, Orderly, Low, High, YearBegin, Spread;
    var s, t := Start(z, y), Start(z, y) + Span(z) - 1;
    assert Span(z) > 0 by { SavingSpans(z); }
    Changes(z, k, y, s);
    Changes(z, k, y, t);
    assert Matches(z, s) && Matches(z, t);
    OneWindow(z, s, y, YearOf(s + Low(z)));
    OneWindow(z, t, y, YearOf(t + Low(z)));
    YearOfSecond(s + Low(z));
    YearOfSecond(t + Low(z));
  }

  lemma SavingSpans(z: Zone)
    requires z.save != 0
    ensures Span(z) > 0
  {}

  lemma EndInOwnYear(z: Zone, k: int, y: int)
    requires ZoneOk(z) && Orderly(z, k) && z.save != 0 && Spread(z, k) && forall v :: Matches(z, v)
    ensures YearBegin(y) <= End(z, y) + Low(z) && End(z, y) + High(z) <= YearBegin(y + 1)
  {
    hide Start, End, YearOf, Dst, Orderly, Low, High, YearBegin, Spread;
    var s, t := End(z, y), End(z, y) + Span(z) - 1;
    assert Span(z) > 0 by { SavingSpans(z); }
    Changes(z, k, y - k, s);
    Changes(z, k, y - k, t);
    assert Matches(z, s) && Matches(z, t);
    OneWindow(z, s, y, YearOf(s + Low(z)));
    OneWindow(z, t, y, YearOf(t + Low(z)));
    YearOfSecond(s + Low(z));
    YearOfSecond(t + Low(z));
  }

  lemma MatchingIsRegular(z: Zone, k: int)
    requires ZoneOk(z) && Orderly(z, k) && z.save != 0 && forall v :: Matches(z, v)
    ensures Regular(z)
  {
    hide Start, End, YearBegin, Matches, Low, High, Orderly;
    forall y ensures SpreadAt(z, k, y) {
      LongDays(z, k, y);
      LongNights(z, k, y);
    }
    forall y ensures Away(z, y) && Long(z, y) {
      StartInOwnYear(z, k, y);
      EndInOwnYear(z, k, y);
      SpreadIsLong(z, k, y);
    }
    InOrder(z, k);
  }

  lemma SpreadIsLong(z: Zone, k: int, y: int)
    requires ZoneOk(z) && Orderly(z, k) && SpreadAt(z, k, y) && SpreadAt(z, k, y - 1)
    ensures Long(z, y)
  {
    hide Start, End, YearBegin, Low, High;
  }

  lemma InOrder(z: Zone, k: int)
    requires ZoneOk(z) && Orderly(z, k)
    ensures Northern(z) || (Southern(z) && InOwnYear(z))
  {
    hide Start, End, YearBegin;
    if k == 0 {
      NorthernOrder(z);
    }
  }

  /** Of the zones whose periods follow in order, exactly the regular ones have all local times
      classified as they are shown, and those without a saving. */
  lemma LocalTimesIffRegular(z: Zone, k: int)
    requires ZoneOk(z) && Orderly(z, k)
    ensures (forall tp :: Classified(z, tp)) <==> z.save == 0 || Regular(z)
  {
    hide Classified, Matches, Regular, Orderly, Low;
    if z.save == 0 {
      forall tp ensures Classified(z, tp) { NoSaving(z, tp); }
    } else if Regular(z) {
      forall tp ensures Classified(z, tp) { LocalTimes(z, tp); }
    } else if forall tp :: Classified(z, tp) {
      forall v ensures Matches(z, v) {
        assert Classified(z, v + Low(z));
        ClassifiedIffMatches(z, v);
      }
      MatchingIsRegular(z, k);
    }
  }

  // ----- which instants are led back to

  /** What a clock shows twice, around the beginning or the end of daylight time, stays inside one
      local year. */
  ghost predicate OverlapsInOwnYear(z: Zone)
    requires ZoneOk(z)
  {
    forall y :: OverlapInYear(z, y)
  }

  predicate OverlapInYear(z: Zone, y: int)
    requires ZoneOk(z)
  {
    var t := if z.save > 0 then End(z, y) else Start(z, y);
    YearBegin(y) <= t + Low(z) && t + High(z) <= YearBegin(y + 1)
  }

  lemma Around(z: Zone, k: int, v: int) returns (y: int)
    requires ZoneOk(z) && Orderly(z, k)
    ensures Start(z, y) <= v < Start(z, y + 1)
  {
    hide Start, End, YearOf, Orderly;
    var n := YearOf(v);
    NearTransitions(z, v);
    y := if v < Start(z, n - 1) then n - 2 else if v < Start(z, n) then n - 1 else if v < Start(z, n + 1) then n else n + 1;
  }

  /** Where daylight time is told to begin or to end, it does. */
  lemma ChangeFound(z: Zone, k: int, v: int) returns (y: int)
    requires ZoneOk(z) && Orderly(z, k) && z.save != 0 && Spread(z, k)
    ensures Up(z, v) ==> InStart(z, v, y)
    ensures Down(z, v) ==> InEnd(z, v, y + k)
  {
    hide Start, End, Dst, Orderly, Span;
    SpanBound(z);
    y := Around(z, k, v);
    assert SpreadAt(z, k, y) && SpreadAt(z, k, y - 1);
    Tells(z, k, y, v);
    Tells(z, k, y, v - Span(z));
    Tells(z, k, y - 1, v - Span(z));
  }

  /** The candidates, the later one being `v`. */
  lemma ReturnsIs(z: Zone, v: int, st: int)
    requires ZoneOk(z) && z.save != 0 && ToLocal(z, st) == v + Low(z)
    ensures st == (if Dst(z, st) == (z.save < 0) then v else v - Span(z))
    ensures var r := GetLocalInfo(z, v + Low(z)).result;
            Returns(z, st) <==>
              r == Ambiguous || (r == Unique && !(if z.save > 0 then Dst(z, st) && Down(z, v) else Dst(z, st) && Up(z, v)))
  {
    hide GetLocalInfo, ToSys, ToSysChoose, Start, End, RuleYear;
    ChoicesAre(z, v + Low(z));
  }

  /** An instant that is not led back to is in a time that is shown twice, and classified by the
      transitions of another year. */
  lemma ReturnsUnlessOverlap(z: Zone, k: int, st: int)
    requires ZoneOk(z) && Orderly(z, k) && z.save != 0 && Spread(z, k) && OverlapsInOwnYear(z)
    ensures Returns(z, st)
  {
    hide GetLocalInfo, ToLocal, Returns, Start, End, Dst, Orderly, Spread, Low, High, Span, YearBegin, YearOf;
    var v := ToLocal(z, st) - Low(z);
    var n := YearOf(v + Low(z));
    ReturnsIs(z, v, st);
    ResultIs(z, v);
    Changes(z, k, n, v);
    Changes(z, k, n - k, v);
    var y := ChangeFound(z, k, v);
    assert OverlapInYear(z, y) && OverlapInYear(z, y + k);
    OverlapYear(z, v, y);
    OverlapYear(z, v, y + k);
  }

  /** The local year of a time shown twice is that of its transition. */
  lemma OverlapYear(z: Zone, v: int, y: int)
    requires ZoneOk(z) && OverlapInYear(z, y)
    ensures (if z.save > 0 then InEnd(z, v, y) else InStart(z, v, y)) ==> YearOf(v + Low(z)) == y
  {
    hide Start, End, YearBegin, YearOf;
    if if z.save > 0 then InEnd(z, v, y) else InStart(z, v, y) {
      YearOfUnique(v + Low(z), y);
    }
  }

  /** Both instants of a time shown twice are led back to only if the transitions of its local year
      show it. */
  lemma OverlapSeen(z: Zone, k: int, v: int, y: int)
    requires ZoneOk(z) && Orderly(z, k) && z.save != 0 && Spread(z, k) && forall st :: Returns(z, st)
    requires if z.save > 0 then InEnd(z, v, y) else InStart(z, v, y)
    ensures YearOf(v + Low(z)) == y
  {
    hide GetLocalInfo, ToLocal, Returns, Start, End, Orderly, Spread, Low, High, Dst, YearBegin, YearOf, InStart, InEnd;
    var n := YearOf(v + Low(z));
    Changes(z, k, y, v);
    Changes(z, k, y - k, v);
    DaylightShows(z, v);
    ResultIs(z, v);
    OneWindow(z, v, y, n);
    var st := if z.save > 0 then v - Span(z) else v;
    assert Returns(z, st);
    ReturnsIs(z, v, st);
  }

  /** The candidate for daylight time shows as the local time if it is in daylight time. */
  lemma DaylightShows(z: Zone, v: int)
    requires ZoneOk(z) && z.save != 0
    ensures var st := if z.save > 0 then v - Span(z) else v; Dst(z, st) ==> ToLocal(z, st) == v + Low(z)
  {
    hide Start, End, RuleYear;
  }

  lemma OverlapsSeen(z: Zone, k: int, y: int)
    requires ZoneOk(z) && Orderly(z, k) && z.save != 0 && Spread(z, k) && forall st :: Returns(z, st)
    ensures OverlapInYear(z, y)
  {
    hide Returns, Start, End, Orderly, Spread, Low, High, YearBegin, YearOf;
    var t := if z.save > 0 then End(z, y) else Start(z, y);
    SavingSpans(z);
    OverlapSeen(z, k, t, y);
    OverlapSeen(z, k, t + Span(z) - 1, y);
    YearOfSecond(t + Low(z));
    YearOfSecond(t + Span(z) - 1 + Low(z));
  }

  lemma ReturnsWithoutSaving(z: Zone, st: int)
    requires ZoneOk(z) && z.save == 0
    ensures Returns(z, st)
  {
    hide Start, End, YearOf, RuleYear;
  }

  /** Of the zones whose periods follow in order and are at least as long as the saving, exactly those
      lead every instant back that show no time twice across the end of a local year. */
  lemma RoundTripIffOverlapsInOwnYear(z: Zone, k: int)
    requires ZoneOk(z) && Orderly(z, k) && Spread(z, k)
    ensures (forall st :: Returns(z, st)) <==> z.save == 0 || OverlapsInOwnYear(z)
  {
    hide Returns, Orderly, Spread, OverlapInYear;
    if z.save == 0 {
      forall st ensures Returns(z, st) { ReturnsWithoutSaving(z, st); }
    } else if OverlapsInOwnYear(z) {
      forall st ensures Returns(z, st) { ReturnsUnlessOverlap(z, k, st); }
    } else if forall st :: Returns(z, st) {
      forall y ensures OverlapInYear(z, y) { OverlapsSeen(z, k, y); }
    }
  }

  /** In a zone without rules every local time belongs to one instant, which it leads back to. */
  lemma ConstantZoneReturns(z: Zone, st: int, tp: int)
    requires z.start.Off? && z.end.Off?
    ensures ToSys(z, ToLocal(z, st)) == Sys(st)
    ensures ToLocal(z, st) == tp <==> ToSys(z, tp) == Sys(st)
  {
    hide Gregorian.ToDays;
  }
}
