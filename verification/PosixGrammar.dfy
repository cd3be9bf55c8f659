/** What a time zone text means, told by its parts alone, and the proof that the constructor of
    `Include/date/ptz.h` accepts exactly these texts and gives them this meaning. */
module PosixGrammar {
  import opened Digits
  import opened PosixText
  import opened PosixZone

  // ----- the parts of a text

  predicate NumberText(t: string, limit: nat, n: int) {
    1 <= |t| <= limit && AllDigits(t) && Value(t, 0) == n
  }

  /** Hours, or hours and minutes, or hours, minutes and seconds. */
  ghost predicate TimeText(t: string, v: int) {
    exists h: int, m: int, sec: int, a, b, c :: TimeParts(t, v, h, m, sec, a, b, c)
  }

  predicate TimeParts(t: string, v: int, h: int, m: int, sec: int, a: string, b: string, c: string) {
    && NumberText(a, 2, h) && h <= 24 && m <= 59 && sec <= 59
    && v == 3600 * h + 60 * m + sec
    && if m < 0 then false
       else if b == "" then t == a && m == 0 && sec == 0
       else NumberText(b, 2, m)
            && if c == "" then t == a + ":" + b && sec == 0 else NumberText(c, 2, sec) && t == a + ":" + b + ":" + c
  }

  ghost predicate SignedText(t: string, v: int) {
    || TimeText(t, v)
    || (t != "" && t[0] == '+' && TimeText(t[1..], v))
    || (t != "" && t[0] == '-' && TimeText(t[1..], -v))
  }

  predicate Letter(c: char) {
    'a' <= c <= 'z' || 'A' <= c <= 'Z'
  }

  /** Letters, or anything between `<` and `>`. */
  predicate NameText(t: string, name: string) {
    && '>' !in name
    && (t == "<" + name + ">" || (t == name && forall k :: 0 <= k < |t| ==> Letter(t[k])))
  }

  /** Day `n` of the year, 29 February never counted; or the day `n` days after 1 January; or a weekday
      of a month. */
  ghost predicate DayText(t: string, r: Rule) {
    match r
    case Off => false
    case J(n, _) => t != "" && t[0] == 'J' && NumberText(t[1..], 3, n) && 1 <= n <= 365
    case N(n, _) => NumberText(t, 3, n) && n <= 365
    case M(m, n, wd, _) => 1 <= m <= 12 && 1 <= n <= 5 && 0 <= wd <= 6 && exists a, b, c :: MonthParts(t, m, n, wd, a, b, c)
  }

  predicate MonthParts(t: string, m: int, n: int, wd: int, a: string, b: string, c: string) {
    NumberText(a, 2, m) && NumberText(b, 1, n) && NumberText(c, 1, wd) && t == "M" + a + "." + b + "." + c
  }

  /** At two o'clock, unless a time is given. */
  ghost predicate RuleText(t: string, r: Rule) {
    exists day, time :: RuleParts(t, r, day, time)
  }

  ghost predicate RuleParts(t: string, r: Rule, day: string, time: string) {
    && t == day + time && DayText(day, r)
    && if time == "" then r.time == 7200 else time[0] == '/' && TimeText(time[1..], r.time)
  }

  ghost predicate RulesText(t: string, start: Rule, end: Rule) {
    || (t == "" && start == Off && end == Off)
    || exists a, b :: RulesParts(t, start, end, a, b)
  }

  ghost predicate RulesParts(t: string, start: Rule, end: Rule, a: string, b: string) {
    t == "," + a + "," + b && RuleText(a, start) && RuleText(b, end)
  }

  /** An hour, unless the offset of daylight time is given; offsets count west of Greenwich. */
  ghost predicate SaveText(t: string, offset: int, save: int) {
    if t == "" then save == 3600 else SignedText(t, -(offset + save))
  }

  datatype Parts = Parts(std: string, offset: string, dst: string, save: string, rules: string)

  function Tail(p: Parts): string {
    p.dst + (p.save + p.rules)
  }

  /** The text is its parts, and `z` what they say. A digit after the offset would belong to it. */
  ghost predicate Says(s: string, p: Parts, z: Zone) {
    && s == p.std + (p.offset + Tail(p))
    && NameText(p.std, z.std) && SignedText(p.offset, -z.offset)
    && Apart(p.offset, Tail(p))
    && if Tail(p) == "" then z.dst == "" && z.save == 3600 && z.start == Off && z.end == Off
       else NameText(p.dst, z.dst) && SaveText(p.save, z.offset, z.save) && RulesText(p.rules, z.start, z.end)
  }

  predicate Apart(t: string, rest: string) {
    rest == "" || !IsDigit(rest[0]) || TwoDigitsEnd(t)
  }

  predicate TwoDigitsEnd(t: string) {
    |t| >= 2 && IsDigit(t[|t| - 1]) && IsDigit(t[|t| - 2])
  }

  /** With rules both names are needed. Without, only one is kept: that of daylight time if it has three
      characters. */
  predicate Kept(z: Zone, kept: Zone) {
    if !z.start.Off? then |z.std| >= 3 && |z.dst| >= 3 && kept == z
    else if |z.dst| >= 3 then kept == Zone("", z.dst, z.offset, z.save, z.start, z.end)
    else |z.std| >= 3 && kept == Zone(z.std, "", z.offset, 0, z.start, z.end)
  }

  ghost predicate Means(s: string, z: Zone) {
    exists p, said :: Says(s, p, said) && Kept(said, z)
  }

  // ----- what is read is such a text

  lemma {:induction false} DigitsSound(s: string, i: nat, count: nat, limit: nat, u: nat)
    requires i <= |s| && count <= limit
    ensures var (v, j) := MoreDigits(s, i, count, limit, u);
            && AllDigits(s[i..j]) && Value(s[i..j], u) == v && count + (j - i) <= limit
            && (count + (j - i) == limit || !DigitAt(s, j))
    decreases |s| - i
  {
    if count < limit && i < |s| && IsDigit(s[i]) {
      DigitsSound(s, i + 1, count + 1, limit, u * 10 + DigitValue(s[i]));
      var j := MoreDigits(s, i, count, limit, u).1;
      assert s[i..j][1..] == s[i + 1..j] && s[i..j] == [s[i]] + s[i + 1..j];
    }
  }

  lemma NumberSound(s: string, i: nat, limit: nat, message: string)
    requires i <= |s| && limit >= 1 && ReadUnsigned(s, i, limit, message).Ok?
    ensures var (n, j) := ReadUnsigned(s, i, limit, message).value;
            NumberText(s[i..j], limit, n) && (j - i == limit || !DigitAt(s, j))
  {
    DigitsSound(s, i + 1, 1, limit, DigitValue(s[i]));
    var j := ReadUnsigned(s, i, limit, message).value.1;
    assert s[i..j][1..] == s[i + 1..j] && s[i..j] == [s[i]] + s[i + 1..j];
  }

  /** The end of a time: no digit could have been added to it. */
  predicate TimeStops(s: string, i: nat, j: nat)
    requires i <= j <= |s|
  {
    !DigitAt(s, j) || TwoDigitsEnd(s[i..j])
  }

  lemma FullNumberStops(s: string, i: nat, k: nat, j: nat, n: int)
    requires i <= k <= j <= |s| && NumberText(s[k..j], 2, n) && (j - k == 2 || !DigitAt(s, j))
    ensures TimeStops(s, i, j)
  {
    if j - k == 2 {
      assert s[i..j][j - i - 1] == s[k..j][1] && s[i..j][j - i - 2] == s[k..j][0];
    }
  }

  lemma TimeSound(s: string, i: nat)
    requires i <= |s| && ReadUnsignedTime(s, i).Ok?
    ensures var (v, j) := ReadUnsignedTime(s, i).value; TimeText(s[i..j], v) && TimeStops(s, i, j)
  {
    hide ReadUnsigned, ReadMinutes, NumberText, TimeStops, TimeParts;
    NumberSound(s, i, 2, "Expected to find hours [0, 24]");
    var (h, k) := ReadUnsigned(s, i, 2, "Expected to find hours [0, 24]").value;
    MinutesSound(s, i, k, h);
  }

  lemma MinutesSound(s: string, i: nat, k: nat, h: nat)
    requires i <= k <= |s| && h <= 24 && NumberText(s[i..k], 2, h) && (k - i == 2 || !DigitAt(s, k))
    requires ReadMinutes(s, k, h * 3600).Ok?
    ensures var (v, j) := ReadMinutes(s, k, h * 3600).value; TimeText(s[i..j], v) && TimeStops(s, i, j)
  {
    hide ReadUnsigned, NumberText, TimeStops, ReadSeconds, TimeParts;
    if k == |s| || s[k] != ':' {
      FullNumberStops(s, i, i, k, h);
      HoursOnly(s[i..k], h);
    } else {
      NumberSound(s, k + 1, 2, "Expected to find minutes [0, 59]");
      var (m, l) := ReadUnsigned(s, k + 1, 2, "Expected to find minutes [0, 59]").value;
      SecondsSound(s, i, k, h, l, m);
    }
  }

  lemma HoursOnly(a: string, h: int)
    requires NumberText(a, 2, h) && h <= 24
    ensures TimeText(a, h * 3600)
  {
    assert TimeParts(a, h * 3600, h, 0, 0, a, "", "");
  }

  lemma MinutesOnly(a: string, h: int, b: string, m: int)
    requires NumberText(a, 2, h) && h <= 24 && NumberText(b, 2, m) && m <= 59
    ensures TimeText(a + ":" + b, h * 3600 + m * 60)
  {
    assert TimeParts(a + ":" + b, h * 3600 + m * 60, h, m, 0, a, b, "");
  }

  lemma AllThree(a: string, h: int, b: string, m: int, c: string, sec: int)
    requires NumberText(a, 2, h) && h <= 24 && NumberText(b, 2, m) && m <= 59 && NumberText(c, 2, sec) && sec <= 59
    ensures TimeText(a + ":" + b + ":" + c, h * 3600 + m * 60 + sec)
  {
    assert TimeParts(a + ":" + b + ":" + c, h * 3600 + m * 60 + sec, h, m, sec, a, b, c);
  }

  lemma SecondsSound(s: string, i: nat, k: nat, h: nat, l: nat, m: nat)
    requires i <= k < l <= |s| && h <= 24 && NumberText(s[i..k], 2, h) && s[k] == ':'
    requires NumberText(s[k + 1..l], 2, m) && m <= 59 && (l - (k + 1) == 2 || !DigitAt(s, l))
    requires ReadSeconds(s, l, h * 3600 + m * 60).Ok?
    ensures var (v, j) := ReadSeconds(s, l, h * 3600 + m * 60).value; TimeText(s[i..j], v) && TimeStops(s, i, j)
  {
    hide ReadUnsigned, NumberText, TimeStops, TimeParts, TimeText;
    if l == |s| || s[l] != ':' {
      FullNumberStops(s, i, k + 1, l, m);
      MinutesOnly(s[i..k], h, s[k + 1..l], m);
      assert s[i..l] == s[i..k] + ":" + s[k + 1..l];
    } else {
      NumberSound(s, l + 1, 2, "Expected to find seconds [0, 59]");
      var (sec, j) := ReadUnsigned(s, l + 1, 2, "Expected to find seconds [0, 59]").value;
      FullNumberStops(s, i, l + 1, j, sec);
      AllThree(s[i..k], h, s[k + 1..l], m, s[l + 1..j], sec);
      assert s[i..j] == s[i..k] + ":" + s[k + 1..l] + ":" + s[l + 1..j];
    }
  }

  lemma SignedSound(s: string, i: nat)
    requires i <= |s| && ReadSignedTime(s, i).Ok?
    ensures var (v, j) := ReadSignedTime(s, i).value; SignedText(s[i..j], v) && TimeStops(s, i, j)
  {
    hide ReadUnsignedTime, TimeText;
    var k := if s[i] == '-' || s[i] == '+' then i + 1 else i;
    TimeSound(s, k);
    var (v, j) := ReadUnsignedTime(s, k).value;
    assert s[i..j][0] == s[i] && s[i..j][1..] == s[i + 1..j];
    assert |s[k..j]| >= 2 ==> s[k..j][j - k - 1] == s[i..j][j - i - 1] && s[k..j][j - k - 2] == s[i..j][j - i - 2];
  }

  lemma NameSound(s: string, i: nat)
    requires i <= |s| && ReadName(s, i).Ok?
    ensures var (name, j) := ReadName(s, i).value; NameText(s[i..j], name)
  {
    if s[i] == '<' {
      var j := FindClose(s, i + 1);
      assert s[i..j + 1] == "<" + s[i + 1..j] + ">";
    }
  }

  lemma MonthWeekSound(s: string, i: nat)
    requires 0 < i <= |s| && s[i - 1] == 'M' && ReadMonthWeek(s, i).Ok?
    ensures var (r, j) := ReadMonthWeek(s, i).value; DayText(s[i - 1..j], r)
  {
    hide ReadUnsigned, NumberText;
    NumberSound(s, i, 2, "Expected to find month [1, 12]");
    var (m, a) := ReadUnsigned(s, i, 2, "Expected to find month [1, 12]").value;
    NumberSound(s, a + 1, 1, "Expected to find week number [1, 5]");
    var (n, b) := ReadUnsigned(s, a + 1, 1, "Expected to find week number [1, 5]").value;
    NumberSound(s, b + 1, 1, "Expected to find day of week [0, 6]");
    var (wd, j) := ReadUnsigned(s, b + 1, 1, "Expected to find day of week [0, 6]").value;
    Dotted(s, i, a, b, j);
    assert MonthParts(s[i - 1..j], m, n, wd, s[i..a], s[a + 1..b], s[b + 1..j]);
  }

  lemma DaySound(s: string, i: nat)
    requires i <= |s| && ReadDay(s, i).Ok?
    ensures var (r, j) := ReadDay(s, i).value; i < j && r.time == 7200 && forall v :: DayText(s[i..j], r.(time := v))
  {
    hide ReadUnsigned, NumberText, MonthParts;
    if s[i] == 'J' {
      NumberSound(s, i + 1, 3, "Expected to find the Julian day [1, 365]");
      var j := ReadDay(s, i).value.1;
      assert s[i..j][0] == 'J' && s[i..j][1..] == s[i + 1..j];
    } else if s[i] == 'M' {
      MonthWeekSound(s, i + 1);
      MonthWeekTime(s, i + 1);
    } else {
      NumberSound(s, i, 3, "");
    }
  }

  lemma Dotted(s: string, i: nat, a: nat, b: nat, j: nat)
    requires 0 < i <= a < b < j <= |s| && s[i - 1] == 'M' && s[a] == '.' && s[b] == '.'
    ensures s[i - 1..j] == "M" + s[i..a] + "." + s[a + 1..b] + "." + s[b + 1..j]
  {
    assert s[i - 1..j] == s[i - 1..i] + s[i..a] + s[a..a + 1] + s[a + 1..b] + s[b..b + 1] + s[b + 1..j];
    assert s[i - 1..i] == "M" && s[a..a + 1] == "." && s[b..b + 1] == ".";
  }

  lemma MonthWeekTime(s: string, i: nat)
    requires i <= |s| && ReadMonthWeek(s, i).Ok?
    ensures var (r, j) := ReadMonthWeek(s, i).value; r.M? && r.time == 7200
  {
    hide ReadUnsigned;
  }

  lemma RuleSound(s: string, i: nat)
    requires i <= |s| && ReadDate(s, i).Ok?
    ensures var (r, j) := ReadDate(s, i).value; RuleText(s[i..j], r)
  {
    hide ReadDay, ReadUnsignedTime, DayText, TimeText;
    DaySound(s, i);
    var (day, k) := ReadDay(s, i).value;
    var (r, j) := ReadDate(s, i).value;
    if k < |s| && s[k] == '/' {
      TimeSound(s, k + 1);
      assert s[k..j][0] == '/' && s[k..j][1..] == s[k + 1..j];
    }
    assert s[i..j] == s[i..k] + s[k..j];
    assert RuleParts(s[i..j], r, s[i..k], s[k..j]);
  }

  lemma RulesSound(s: string, i: nat)
    requires i <= |s| && ReadRules(s, i).Ok?
    ensures var (start, end) := ReadRules(s, i).value; RulesText(s[i..], start, end)
  {
    hide ReadDate, RuleText;
    if i < |s| {
      RuleSound(s, i + 1);
      var (start, k) := ReadDate(s, i + 1).value;
      RuleSound(s, k + 1);
      var (end, j) := ReadDate(s, k + 1).value;
      assert s[i..] == "," + s[i + 1..k] + "," + s[k + 1..j];
      assert RulesParts(s[i..], start, end, s[i + 1..k], s[k + 1..j]);
    }
  }

  lemma SaveSound(s: string, i: nat, offset: int)
    requires i <= |s| && ReadSave(s, i, offset).Ok?
    ensures var (save, j) := ReadSave(s, i, offset).value; SaveText(s[i..j], offset, save)
  {
    hide ReadSignedTime, SignedText;
    if i < |s| && s[i] != ',' {
      SignedSound(s, i);
      SignedMoves(s, i);
    }
  }

  lemma SignedMoves(s: string, i: nat)
    requires i <= |s| && ReadSignedTime(s, i).Ok?
    ensures ReadSignedTime(s, i).value.1 > i
  {}

  lemma SettleKeeps(z: Zone, stdAt: nat, abbrevAt: nat, kept: Zone)
    ensures Settle(z, stdAt, abbrevAt) == Ok(kept) <==> Kept(z, kept)
  {}

  /** What the constructor reads before its final checks. */
  function ReadParts(s: string): Result<(Zone, Parts)> {
    var (std, a) :- ReadName(s, 0);
    var (t, b) :- ReadSignedTime(s, a);
    if b == |s| then Ok((Zone(std, "", -t, DEFAULT_SAVE, Off, Off), Parts(s[..a], s[a..b], "", "", ""))) else
    var (dst, c) :- ReadName(s, b);
    var (save, d) :- ReadSave(s, c, -t);
    var (start, end) :- ReadRules(s, d);
    Ok((Zone(std, dst, -t, save, start, end), Parts(s[..a], s[a..b], s[b..c], s[c..d], s[d..])))
  }

  lemma ParseReadsParts(s: string, z: Zone)
    ensures Parse(s) == Ok(z) <==> ReadParts(s).Ok? && Kept(ReadParts(s).value.0, z)
  {
    hide ReadName, ReadSignedTime, ReadSave, ReadRules, Kept, Settle;
    forall raw, stdAt, abbrevAt ensures Settle(raw, stdAt, abbrevAt) == Ok(z) <==> Kept(raw, z) {
      SettleKeeps(raw, stdAt, abbrevAt, z);
    }
  }

  lemma PartsSound(s: string)
    requires ReadParts(s).Ok?
    ensures var (z, p) := ReadParts(s).value; Says(s, p, z)
  {
    hide ReadName, ReadSignedTime, ReadSave, ReadRules, NameText, SignedText, SaveText, RulesText, TwoDigitsEnd;
    var (z, p) := ReadParts(s).value;
    NameSound(s, 0);
    var a := ReadName(s, 0).value.1;
    SignedSound(s, a);
    var b := ReadSignedTime(s, a).value.1;
    assert s[0..a] == s[..a];
    if b < |s| {
      NameSound(s, b);
      var c := ReadName(s, b).value.1;
      SaveSound(s, c, z.offset);
      var d := ReadSave(s, c, z.offset).value.1;
      RulesSound(s, d);
      assert Tail(p) == s[b..c] + (s[c..d] + s[d..]) == s[b..];
    }
    assert s == s[..a] + (s[a..b] + s[b..]);
  }

  // ----- such a text is read

  lemma NumberReads(s: string, i: nat, limit: nat, message: string, t: string, n: int)
    requires NumberText(t, limit, n) && Reads(s, i, t) && (|t| == limit || !DigitAt(s, i + |t|))
    ensures ReadUnsigned(s, i, limit, message) == Ok((n, i + |t|))
  {
    ReadUnsignedReads(s, i, limit, message, t);
  }

  /** Neither a colon nor a digit that would belong to the time follows. */
  predicate TimeEndsAt(s: string, t: string, j: nat) {
    !CharAt(s, j, ':') && (!DigitAt(s, j) || TwoDigitsEnd(t))
  }

  lemma TimeReads(s: string, i: nat, t: string, v: int)
    requires TimeText(t, v) && Reads(s, i, t) && TimeEndsAt(s, t, i + |t|)
    ensures ReadUnsignedTime(s, i) == Ok((v, i + |t|)) && t != "" && IsDigit(t[0])
  {
    hide ReadUnsignedTime, NumberText, Reads, TimeEndsAt;
    var h: int, m: int, sec: int, a, b, c :| TimeParts(t, v, h, m, sec, a, b, c);
    NumberSize(a, 2, h);
    if b == "" {
      HoursRead(s, i, a, h);
    } else if c == "" {
      MinutesRead(s, i, a, h, b, m);
    } else {
      SecondsRead(s, i, a, h, b, m, c, sec);
    }
  }

  lemma HoursRead(s: string, i: nat, a: string, h: int)
    requires NumberText(a, 2, h) && h <= 24 && Reads(s, i, a) && TimeEndsAt(s, a, i + |a|)
    ensures ReadUnsignedTime(s, i) == Ok((3600 * h, i + |a|))
  {
    hide ReadUnsigned;
    NumberReads(s, i, 2, "Expected to find hours [0, 24]", a, h);
  }

  lemma ColonHours(s: string, i: nat, a: string, h: int)
    requires NumberText(a, 2, h) && h <= 24 && Reads(s, i, a) && CharAt(s, i + |a|, ':')
    ensures ReadUnsignedTime(s, i) == ReadMinutes(s, i + |a|, 3600 * h)
  {
    hide ReadUnsigned, ReadMinutes;
    NumberReads(s, i, 2, "Expected to find hours [0, 24]", a, h);
  }

  lemma EndsTwo(t: string, b: string, s: string, j: nat)
    requires |b| <= |t| && t[|t| - |b|..] == b && TimeEndsAt(s, t, j) && |t| > |b| > 0 && t[|t| - |b| - 1] == ':'
    ensures !CharAt(s, j, ':') && (|b| >= 2 || !DigitAt(s, j))
  {}

  lemma MinutesPlaces(s: string, i: nat, a: string, b: string)
    requires Reads(s, i, a + ":" + b)
    ensures Reads(s, i, a) && CharAt(s, i + |a|, ':') && Reads(s, i + |a| + 1, b)
  {
    hide Reads;
    ReadsConcat(s, i, a + ":", b);
    ReadsConcat(s, i, a, ":");
    ReadsChar(s, i + |a|, ':', "");
  }

  lemma MinutesRead(s: string, i: nat, a: string, h: int, b: string, m: int)
    requires NumberText(a, 2, h) && h <= 24 && NumberText(b, 2, m) && 0 <= m <= 59
    requires Reads(s, i, a + ":" + b) && TimeEndsAt(s, a + ":" + b, i + |a| + 1 + |b|)
    ensures ReadUnsignedTime(s, i) == Ok((3600 * h + 60 * m, i + |a| + 1 + |b|))
  {
    hide ReadUnsigned, ReadUnsignedTime, NumberText, Reads, TimeEndsAt;
    var t, k := a + ":" + b, i + |a| + 1;
    NumberSize(a, 2, h);
    NumberSize(b, 2, m);
    MinutesPlaces(s, i, a, b);
    BoundsOf(s, i, t);
    ColonHours(s, i, a, h);
    assert t[|t| - |b|..] == b;
    EndsTwo(t, b, s, k + |b|);
    NumberReads(s, k, 2, "Expected to find minutes [0, 59]", b, m);
  }

  lemma NumberSize(t: string, limit: nat, n: int)
    requires NumberText(t, limit, n)
    ensures 1 <= |t| <= limit && n >= 0 && IsDigit(t[0])
  {}

  lemma ColonMinutes(s: string, k: nat, b: string, t: int, m: int)
    requires 1 <= k && CharAt(s, k - 1, ':') && NumberText(b, 2, m) && m <= 59 && Reads(s, k, b) && CharAt(s, k + |b|, ':')
    ensures ReadMinutes(s, k - 1, t) == ReadSeconds(s, k + |b|, t + m * 60)
  {
    hide ReadUnsigned, ReadSeconds;
    NumberReads(s, k, 2, "Expected to find minutes [0, 59]", b, m);
  }

  lemma SecondsRead(s: string, i: nat, a: string, h: int, b: string, m: int, c: string, sec: int)
    requires NumberText(a, 2, h) && h <= 24 && NumberText(b, 2, m) && 0 <= m <= 59 && NumberText(c, 2, sec) && sec <= 59
    requires Reads(s, i, a + ":" + b + ":" + c) && TimeEndsAt(s, a + ":" + b + ":" + c, i + |a| + 1 + |b| + 1 + |c|)
    ensures ReadUnsignedTime(s, i) == Ok((3600 * h + 60 * m + sec, i + |a| + 1 + |b| + 1 + |c|))
  {
    hide ReadUnsigned, ReadUnsignedTime, NumberText, Reads, TimeEndsAt;
    var t, k, l := a + ":" + b + ":" + c, i + |a| + 1, i + |a| + 1 + |b| + 1;
    NumberSize(a, 2, h);
    NumberSize(b, 2, m);
    NumberSize(c, 2, sec);
    MinutesPlaces(s, i, a + ":" + b, c);
    MinutesPlaces(s, i, a, b);
    BoundsOf(s, i, t);
    ColonHours(s, i, a, h);
    assert t[|t| - |c|..] == c;
    EndsTwo(t, c, s, l + |c|);
    ColonMinutes(s, k, b, 3600 * h, m);
    NumberReads(s, l, 2, "Expected to find seconds [0, 59]", c, sec);
  }

  lemma SignedReads(s: string, i: nat, t: string, v: int)
    requires SignedText(t, v) && Reads(s, i, t) && TimeEndsAt(s, t, i + |t|)
    ensures ReadSignedTime(s, i) == Ok((v, i + |t|)) && t != "" && (IsDigit(t[0]) || t[0] in "+-")
  {
    hide ReadUnsignedTime, TimeText;
    if TimeText(t, v) {
      TimeReads(s, i, t, v);
      FirstChar(s, i, t);
    } else {
      var w := if t[0] == '+' then v else -v;
      assert t == [t[0]] + t[1..];
      ReadsChar(s, i, t[0], t[1..]);
      SignedEnds(s, t, i + |t|);
      TimeReads(s, i + 1, t[1..], w);
    }
  }

  lemma SignedEnds(s: string, t: string, j: nat)
    requires t != "" && t[0] in "+-" && TimeEndsAt(s, t, j)
    ensures TimeEndsAt(s, t[1..], j)
  {
    if TwoDigitsEnd(t) {
      assert |t| > 2;
    }
  }

  /** The name is not followed by anything that would belong to it. */
  lemma NameReads(s: string, i: nat, t: string, name: string)
    requires NameText(t, name) && Reads(s, i, t) && i < |s|
    requires i + |t| < |s| ==> !Letter(s[i + |t|]) && (t == "" ==> s[i] != '<')
    ensures ReadName(s, i) == Ok((name, i + |t|))
  {
    if t == "<" + name + ">" {
      ReadsConcat(s, i, "<" + name, ">");
      ReadsConcat(s, i, "<", name);
      FirstChar(s, i, "<");
      FirstChar(s, i + 1 + |name|, ">");
      assert forall k {:trigger s[k]} :: i + 1 <= k < i + 1 + |name| ==> s[k] == s[i + 1..i + 1 + |name|][k - i - 1];
    } else {
      AlphaRun(s, i, t);
      if t != "" {
        FirstChar(s, i, t);
      }
    }
  }

  lemma DayReads(s: string, i: nat, t: string, r: Rule)
    requires DayText(t, r) && Reads(s, i, t) && !DigitAt(s, i + |t|)
    ensures ReadDay(s, i).Ok? && ReadDay(s, i).value.0.(time := r.time) == r && ReadDay(s, i).value.1 == i + |t|
  {
    hide ReadUnsigned, NumberText, ReadMonthWeek, MonthParts;
    match r
    case J(n, _) =>
      assert t == "J" + t[1..];
      ReadsChar(s, i, 'J', t[1..]);
      NumberSize(t[1..], 3, n);
      NumberReads(s, i + 1, 3, "Expected to find the Julian day [1, 365]", t[1..], n);
    case N(n, _) =>
      NumberSize(t, 3, n);
      FirstChar(s, i, t);
      NumberReads(s, i, 3, "", t, n);
    case M(m, n, wd, time) =>
      var a, b, c :| MonthParts(t, m, n, wd, a, b, c);
      MonthReads(s, i, t, m, n, wd, a, b, c);
  }

  lemma MonthPlaces(s: string, i: nat, a: string, b: string, c: string)
    requires Reads(s, i, "M" + a + "." + b + "." + c)
    ensures CharAt(s, i, 'M') && CharAt(s, i + 1 + |a|, '.') && CharAt(s, i + 2 + |a| + |b|, '.')
    ensures Reads(s, i + 1, a) && Reads(s, i + 2 + |a|, b) && Reads(s, i + 3 + |a| + |b|, c)
  {
    hide Reads, CharAt;
    ReadsConcat(s, i, "M" + a + "." + b + ".", c);
    ReadsConcat(s, i, "M" + a + "." + b, ".");
    ReadsConcat(s, i, "M" + a + ".", b);
    ReadsConcat(s, i, "M" + a, ".");
    ReadsConcat(s, i, "M", a);
    FirstChar(s, i, "M");
    FirstChar(s, i + 1 + |a|, ".");
    FirstChar(s, i + 2 + |a| + |b|, ".");
  }

  lemma MonthReads(s: string, i: nat, t: string, m: int, n: int, wd: int, a: string, b: string, c: string)
    requires MonthParts(t, m, n, wd, a, b, c) && Reads(s, i, t) && 1 <= m <= 12 && 1 <= n <= 5 && 0 <= wd <= 6
    ensures CharAt(s, i, 'M') && ReadMonthWeek(s, i + 1) == Ok((M(m, n, wd, DEFAULT_TIME), i + |t|))
  {
    hide ReadUnsigned, NumberText, Reads;
    NumberSize(a, 2, m);
    NumberSize(b, 1, n);
    NumberSize(c, 1, wd);
    MonthPlaces(s, i, a, b, c);
    BoundsOf(s, i, t);
    NumberReads(s, i + 1, 2, "Expected to find month [1, 12]", a, m);
    NumberReads(s, i + 2 + |a|, 1, "Expected to find week number [1, 5]", b, n);
    NumberReads(s, i + 3 + |a| + |b|, 1, "Expected to find day of week [0, 6]", c, wd);
  }

  lemma DayIsRule(t: string, r: Rule)
    requires DayText(t, r)
    ensures !r.Off?
  {}

  lemma RuleReads(s: string, i: nat, t: string, r: Rule)
    requires RuleText(t, r) && Reads(s, i, t) && CommaOrEnd(s, i + |t|)
    ensures ReadDate(s, i) == Ok((r, i + |t|))
  {
    hide ReadDay, ReadUnsignedTime, DayText, TimeText, Reads;
    var day, time :| RuleParts(t, r, day, time);
    DayIsRule(day, r);
    ReadsConcat(s, i, day, time);
    BoundsOf(s, i, t);
    var k := i + |day|;
    if time != "" {
      assert time == "/" + time[1..];
      ReadsChar(s, k, '/', time[1..]);
      TimeReads(s, k + 1, time[1..], r.time);
    }
    DayReads(s, i, day, r);
  }

  lemma RulesRead(s: string, i: nat, t: string, start: Rule, end: Rule)
    requires RulesText(t, start, end) && Reads(s, i, t) && i + |t| == |s|
    ensures ReadRules(s, i) == Ok((start, end)) && CommaOrEnd(s, i)
  {
    hide ReadDate, RuleText;
    if !(t == "" && start == Off && end == Off) {
      var a, b :| RulesParts(t, start, end, a, b);
      ReadsConcat(s, i, "," + a + ",", b);
      ReadsConcat(s, i, "," + a, ",");
      ReadsConcat(s, i, ",", a);
      FirstChar(s, i, ",");
      FirstChar(s, i + 1 + |a|, ",");
      RuleReads(s, i + 1, a, start);
      RuleReads(s, i + 2 + |a|, b, end);
    }
  }

  lemma SaveReads(s: string, i: nat, t: string, offset: int, save: int)
    requires SaveText(t, offset, save) && Reads(s, i, t) && CommaOrEnd(s, i + |t|)
    ensures ReadSave(s, i, offset) == Ok((save, i + |t|)) && (t != "" ==> IsDigit(t[0]) || t[0] in "+-")
  {
    hide ReadSignedTime, SignedText;
    if t != "" {
      SignedReads(s, i, t, -(offset + save));
      FirstChar(s, i, t);
    }
  }

  lemma PartsRead(s: string, p: Parts, z: Zone)
    requires Says(s, p, z)
    ensures ReadParts(s).Ok? && ReadParts(s).value.0 == z
  {
    hide ReadName, ReadSignedTime, ReadSave, ReadRules, NameText, SignedText, SaveText, RulesText, TwoDigitsEnd, Reads, CharAt;
    var tail := Tail(p);
    var a, b := |p.std|, |p.std| + |p.offset|;
    assert Reads(s, 0, s) by { WholeReads(s); }
    ReadsConcat(s, 0, p.std, p.offset + tail);
    ReadsConcat(s, a, p.offset, tail);
    if tail != "" {
      TailReads(s, b, p, z);
    }
    OffsetReads(s, p, z, tail);
  }

  lemma WholeReads(s: string)
    ensures Reads(s, 0, s)
  {
    assert s[0..|s|] == s;
  }

  lemma OffsetReads(s: string, p: Parts, z: Zone, tail: string)
    requires s == p.std + (p.offset + tail) && NameText(p.std, z.std) && SignedText(p.offset, -z.offset) && Apart(p.offset, tail)
    requires tail == "" || tail[0] != ':'
    requires Reads(s, 0, p.std) && Reads(s, |p.std|, p.offset)
    ensures ReadName(s, 0) == Ok((z.std, |p.std|))
    ensures ReadSignedTime(s, |p.std|) == Ok((-z.offset, |p.std| + |p.offset|))
  {
    hide ReadName, ReadSignedTime, NameText, SignedText, TwoDigitsEnd, Reads;
    var a, b := |p.std|, |p.std| + |p.offset|;
    assert b < |s| ==> s[b] == tail[0];
    SignedReads(s, a, p.offset, -z.offset);
    assert s[a] == p.offset[0];
    NameReads(s, 0, p.std, z.std);
  }

  lemma TailReads(s: string, b: nat, p: Parts, z: Zone)
    requires Reads(s, b, Tail(p)) && b + |Tail(p)| == |s| && Tail(p) != ""
    requires NameText(p.dst, z.dst) && SaveText(p.save, z.offset, z.save) && RulesText(p.rules, z.start, z.end)
    ensures ReadName(s, b) == Ok((z.dst, b + |p.dst|)) && Tail(p)[0] != ':'
    ensures ReadSave(s, b + |p.dst|, z.offset) == Ok((z.save, b + |p.dst| + |p.save|))
    ensures ReadRules(s, b + |p.dst| + |p.save|) == Ok((z.start, z.end))
  {
    hide ReadName, ReadSave, ReadRules, NameText, SaveText, RulesText, Reads;
    var c, d := b + |p.dst|, b + |p.dst| + |p.save|;
    ReadsConcat(s, b, p.dst, p.save + p.rules);
    ReadsConcat(s, c, p.save, p.rules);
    RulesRead(s, d, p.rules, z.start, z.end);
    SaveReads(s, c, p.save, z.offset, z.save);
    FirstChar(s, b, Tail(p));
    if p.save != "" {
      FirstChar(s, c, p.save);
    }
    NameStart(p.dst, z.dst);
    NameReads(s, b, p.dst, z.dst);
  }

  lemma NameStart(t: string, name: string)
    requires NameText(t, name)
    ensures t != "" ==> t[0] == '<' || Letter(t[0])
  {}

  /** The constructor accepts exactly the texts that mean a zone, and builds this zone. */
  lemma ParsedIffMeant(s: string, z: Zone)
    ensures Parse(s) == Ok(z) <==> Means(s, z)
  {
    hide Parse, ReadParts, Says, Kept;
    ParseReadsParts(s, z);
    if ReadParts(s).Ok? {
      PartsSound(s);
    }
    forall p, said | Says(s, p, said) && Kept(said, z) ensures Parse(s) == Ok(z) {
      PartsRead(s, p, said);
    }
  }
}
