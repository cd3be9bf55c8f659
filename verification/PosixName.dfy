/** Printing a POSIX time zone: `name()` of `Include/date/ptz.h`, and how it goes together with reading. */
module PosixName {
  import opened Digits
  import opened PosixGrammar
  import opened PosixText
  import opened PosixZone

  function TwoDigits(n: nat): string {
    if n < 10 then "0" + Decimal(n) else Decimal(n)
  }

  /** Hours, then minutes and seconds as far as they are not zero. */
  function PrintTime(t: nat): string {
    Decimal(t / 3600) + PrintMinutes(t % 3600 / 60, t % 60)
  }

  function PrintMinutes(m: nat, sec: nat): string {
    if m == 0 && sec == 0 then "" else ":" + TwoDigits(m) + PrintSeconds(sec)
  }

  function PrintSeconds(sec: nat): string {
    if sec == 0 then "" else ":" + TwoDigits(sec)
  }

  function PrintOffset(off: int): string {
    if -off < 0 then "-" + PrintTime(off) else PrintTime(-off)
  }

  function PrintAbbrev(nm: string): string {
    if exists k :: 0 <= k < |nm| && !IsAlpha(nm[k]) then "<" + nm + ">" else nm
  }

  function PrintMonthWeek(m: nat, n: nat, wd: nat): string {
    Decimal(m) + ("." + (Decimal(n) + ("." + Decimal(wd))))
  }

  function PrintDay(r: Rule): string
    requires RuleOk(r)
  {
    match r
    case J(n, _) => "J" + Decimal(n)
    case M(m, n, wd, _) => "M" + PrintMonthWeek(m, n, wd)
    case N(n, _) => Decimal(n)
  }

  function PrintRuleTime(t: nat): string {
    if t != DEFAULT_TIME then "/" + PrintTime(t) else ""
  }

  function PrintRule(r: Rule): string
    requires RuleOk(r)
  {
    PrintDay(r) + PrintRuleTime(r.time)
  }

  function PrintRules(start: Rule, end: Rule): string
    requires !start.Off? ==> RuleOk(start) && RuleOk(end)
  {
    if start.Off? then "" else "," + (PrintRule(start) + ("," + PrintRule(end)))
  }

  function PrintSave(offset: int, save: int): string {
    if save != DEFAULT_SAVE then PrintOffset(offset + save) else ""
  }

  function Name(z: Zone): string
    requires !z.start.Off? ==> RuleOk(z.start) && RuleOk(z.end)
  {
    PrintAbbrev(z.std) + PrintOffset(z.offset)
    + (if z.dst == "" then ""
       else PrintAbbrev(z.dst) + PrintSave(z.offset, z.save) + PrintRules(z.start, z.end))
  }

  // ----- what is printed means the zone

  /** The zones the constructor can build. */
  predicate Constructible(z: Zone) {
    && '>' !in z.std && '>' !in z.dst && -25 * 3600 < z.offset < 25 * 3600
    && if z.start.Off? then
         && z.end.Off?
         && ((|z.std| >= 3 && z.dst == "" && z.save == 0) || (z.std == "" && |z.dst| >= 3 && SaveOk(z)))
       else RuleOk(z.start) && RuleOk(z.end) && |z.std| >= 3 && |z.dst| >= 3 && SaveOk(z)
  }

  predicate SaveOk(z: Zone) {
    z.save == DEFAULT_SAVE || -25 * 3600 < z.offset + z.save < 25 * 3600
  }

  lemma ParsedIsConstructible(s: string)
    requires Parse(s).Ok?
    ensures Constructible(Parse(s).value)
  {
    hide ReadName, ReadSignedTime, ReadSave, ReadRules;
  }

  lemma DecimalNumber(n: nat, limit: nat)
    requires (n < 10 && limit >= 1) || (n < 100 && limit >= 2) || (n < 1000 && limit >= 3)
    ensures NumberText(Decimal(n), limit, n)
  {
    ValueOfDecimal(n);
    DecimalLength(n);
  }

  lemma TwoDigitsNumber(n: nat)
    requires n < 60
    ensures NumberText(TwoDigits(n), 2, n)
  {
    ValueOfDecimal(n);
    DecimalLength(n);
    if n < 10 {
      ValueAppend("0", Decimal(n), 0);
    }
  }

  lemma TimePrinted(t: nat)
    requires t < 25 * 3600
    ensures TimeText(PrintTime(t), t)
  {
    hide NumberText, Decimal, TwoDigits, TimeText;
    var h, m, sec := t / 3600, t % 3600 / 60, t % 60;
    assert t == h * 3600 + m * 60 + sec;
    DecimalNumber(h, 2);
    TwoDigitsNumber(m);
    TwoDigitsNumber(sec);
    HoursOnly(Decimal(h), h);
    MinutesOnly(Decimal(h), h, TwoDigits(m), m);
    AllThree(Decimal(h), h, TwoDigits(m), m, TwoDigits(sec), sec);
    assert Decimal(h) + "" == Decimal(h);
    assert Decimal(h) + (":" + TwoDigits(m) + "") == Decimal(h) + ":" + TwoDigits(m);
    assert Decimal(h) + (":" + TwoDigits(m) + (":" + TwoDigits(sec)))
        == Decimal(h) + ":" + TwoDigits(m) + ":" + TwoDigits(sec);
  }

  lemma OffsetPrinted(off: int)
    requires -25 * 3600 < off < 25 * 3600
    ensures SignedText(PrintOffset(off), -off)
  {
    hide TimeText, PrintTime;
    if off > 0 {
      TimePrinted(off);
      assert ("-" + PrintTime(off))[1..] == PrintTime(off);
    } else {
      TimePrinted(-off);
    }
  }

  lemma AbbrevPrinted(nm: string)
    requires '>' !in nm
    ensures NameText(PrintAbbrev(nm), nm)
    ensures nm != "" ==> PrintAbbrev(nm) != "" && !IsDigit(PrintAbbrev(nm)[0])
  {}

  lemma RulePrinted(r: Rule)
    requires RuleOk(r)
    ensures RuleText(PrintRule(r), r)
  {
    hide TimeText, PrintTime, DayText;
    DayPrinted(r);
    var time := PrintRuleTime(r.time);
    TimePrinted(r.time);
    if time != "" {
      assert time[1..] == PrintTime(r.time);
    }
    assert RuleParts(PrintRule(r), r, PrintDay(r), time);
  }

  lemma DayPrinted(r: Rule)
    requires RuleOk(r)
    ensures DayText(PrintDay(r), r)
  {
    hide Decimal, NumberText;
    match r
    case J(n, _) =>
      DecimalNumber(n, 3);
      assert ("J" + Decimal(n))[1..] == Decimal(n);
    case N(n, _) => DecimalNumber(n, 3);
    case M(m, n, wd, _) =>
      DecimalNumber(m, 2);
      DecimalNumber(n, 1);
      DecimalNumber(wd, 1);
      var a, b, c := Decimal(m), Decimal(n), Decimal(wd);
      assert "M" + (a + ("." + (b + ("." + c)))) == "M" + a + "." + b + "." + c;
      assert MonthParts(PrintDay(r), m, n, wd, a, b, c);
  }

  lemma RulesPrinted(start: Rule, end: Rule)
    requires (start == Off && end == Off) || (RuleOk(start) && RuleOk(end))
    ensures RulesText(PrintRules(start, end), start, end)
  {
    hide PrintRule, RuleText;
    if !start.Off? {
      RulePrinted(start);
      RulePrinted(end);
      var a, b := PrintRule(start), PrintRule(end);
      assert "," + (a + ("," + b)) == "," + a + "," + b;
      assert RulesParts(PrintRules(start, end), start, end, a, b);
    }
  }

  lemma SavePrinted(z: Zone)
    requires SaveOk(z)
    ensures SaveText(PrintSave(z.offset, z.save), z.offset, z.save)
  {
    hide SignedText, PrintTime;
    if z.save != DEFAULT_SAVE {
      OffsetPrinted(z.offset + z.save);
      assert PrintOffset(z.offset + z.save) != "" by { TimeNotEmpty(z.offset + z.save); }
    }
  }

  lemma TimeNotEmpty(off: int)
    ensures PrintOffset(off) != ""
  {}

  lemma NameMeans(z: Zone)
    requires Constructible(z)
    ensures Means(Name(z), z)
  {
    hide NameText, SignedText, SaveText, RulesText, PrintAbbrev, PrintOffset, PrintSave, PrintRules, RuleOk, TwoDigitsEnd;
    AbbrevPrinted(z.std);
    OffsetPrinted(z.offset);
    var p := Parts(PrintAbbrev(z.std), PrintOffset(z.offset), "", "", "");
    var said := z;
    if z.dst != "" {
      AbbrevPrinted(z.dst);
      SavePrinted(z);
      RulesPrinted(z.start, z.end);
      p := Parts(p.std, p.offset, PrintAbbrev(z.dst), PrintSave(z.offset, z.save), PrintRules(z.start, z.end));
      assert Tail(p)[0] == p.dst[0];
      assert p.std + p.offset + (p.dst + p.save + p.rules) == p.std + (p.offset + Tail(p));
    } else {
      said := z.(save := DEFAULT_SAVE);
      assert p.std + (p.offset + "") == p.std + p.offset + "";
    }
    assert Says(Name(z), p, said);
    assert Kept(said, z);
  }

  /** Every zone the constructor can build is read back from its name, times of day included. */
  lemma NameRoundTrip(z: Zone)
    requires Constructible(z)
    ensures Parse(Name(z)) == Ok(z)
  {
    hide Parse, Name, Means;
    NameMeans(z);
    ParsedIffMeant(Name(z), z);
  }

  /** Parser and printer undo each other on every text the constructor accepts. */
  lemma ParseNameParse(s: string)
    requires Parse(s).Ok?
    ensures Constructible(Parse(s).value) && Parse(Name(Parse(s).value)) == Parse(s)
  {
    hide Parse, Name, RuleOk;
    ParsedIsConstructible(s);
    NameRoundTrip(Parse(s).value);
  }

  /** Exactly the constructible zones are read from some text. */
  lemma ConstructibleIffParsed(z: Zone)
    ensures Constructible(z) <==> exists s :: Parse(s) == Ok(z)
  {
    hide Parse, Name, RuleOk;
    if Constructible(z) {
      NameRoundTrip(z);
    }
    forall s | Parse(s) == Ok(z) ensures Constructible(z) {
      ParsedIsConstructible(s);
    }
  }

  /** Zones with rules that were read are those the conversions are proved for. */
  lemma ConstructibleIsZoneOk(z: Zone)
    requires Constructible(z) && !z.start.Off?
    ensures ZoneOk(z)
  {}
}
