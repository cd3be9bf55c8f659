/** Reading the text of a POSIX time zone: the constructor of `Include/date/ptz.h`. */
module PosixText {
  import opened Digits
  import opened PosixZone

  /** A value and the index after it, or where and why the text is refused. */
  datatype Result<+T> = Ok(value: T) | Invalid(at: int, message: string) {
    predicate IsFailure() {
      Invalid?
    }

    function PropagateFailure<U>(): Result<U>
      requires Invalid?
    {
      Invalid(at, message)
    }

    function Extract(): T
      requires Ok?
    {
      value
    }
  }

  predicate IsAlpha(c: char) {
    'A' <= c <= 'Z' || 'a' <= c <= 'z'
  }

  // ----- reading

  /** The digits from `i` on, `count` of at most `limit` already taken, appended to `u`. */
  function MoreDigits(s: string, i: nat, count: nat, limit: nat, u: nat): (r: (nat, nat))
    requires i <= |s|
    ensures i <= r.1 <= |s|
    decreases |s| - i
  {
    if count < limit && i < |s| && IsDigit(s[i])
    then MoreDigits(s, i + 1, count + 1, limit, u * 10 + DigitValue(s[i]))
    else (u, i)
  }

  function ReadUnsigned(s: string, i: nat, limit: nat, message: string): (r: Result<(nat, nat)>)
    requires i <= |s|
    ensures r.Ok? ==> i < r.value.1 <= |s|
  {
    if i == |s| || !IsDigit(s[i]) then Invalid(i, message)
    else Ok(MoreDigits(s, i + 1, 1, limit, DigitValue(s[i])))
  }

  function ReadUnsignedTime(s: string, i: nat): (r: Result<(int, nat)>)
    requires i <= |s|
    ensures r.Ok? ==> i < r.value.1 <= |s| && 0 <= r.value.0 < 25 * 3600
  {
    if i == |s| then Invalid(i, "Expected to read unsigned time, but found end of string") else
    var (h, i) :- ReadUnsigned(s, i, 2, "Expected to find hours [0, 24]");
    if h > 24 then Invalid(i - 1, "Expected hours to be in the range [0, 24]")
    else ReadMinutes(s, i, h * 3600)
  }

  function ReadMinutes(s: string, i: nat, t: int): (r: Result<(int, nat)>)
    requires i <= |s|
    ensures r.Ok? ==> i <= r.value.1 <= |s| && t <= r.value.0 < t + 3600
  {
    if i == |s| || s[i] != ':' then Ok((t, i)) else
    var (m, i) :- ReadUnsigned(s, i + 1, 2, "Expected to find minutes [0, 59]");
    if m > 59 then Invalid(i - 1, "Expected minutes to be in the range [0, 59]")
    else ReadSeconds(s, i, t + m * 60)
  }

  function ReadSeconds(s: string, i: nat, t: int): (r: Result<(int, nat)>)
    requires i <= |s|
    ensures r.Ok? ==> i <= r.value.1 <= |s| && t <= r.value.0 < t + 60
  {
    if i == |s| || s[i] != ':' then Ok((t, i)) else
    var (sec, i) :- ReadUnsigned(s, i + 1, 2, "Expected to find seconds [0, 59]");
    if sec > 59 then Invalid(i - 1, "Expected seconds to be in the range [0, 59]")
    else Ok((t + sec, i))
  }

  function ReadSignedTime(s: string, i: nat): (r: Result<(int, nat)>)
    requires i <= |s|
    ensures r.Ok? ==> i < r.value.1 <= |s| && -25 * 3600 < r.value.0 < 25 * 3600
  {
    if i == |s| then Invalid(i, "Expected to read signed time, but found end of string") else
    var (t, j) :- ReadUnsignedTime(s, if s[i] == '-' || s[i] == '+' then i + 1 else i);
    Ok((if s[i] == '-' then -t else t, j))
  }

  /** The index of the closing '>' from `i` on. */
  function FindClose(s: string, i: nat): (j: nat)
    requires i <= |s|
    ensures i <= j <= |s| && (j < |s| ==> s[j] == '>')
    ensures forall k :: i <= k < j ==> s[k] != '>'
    decreases |s| - i
  {
    if i < |s| && s[i] != '>' then FindClose(s, i + 1) else i
  }

  function FindNonAlpha(s: string, i: nat): (j: nat)
    requires i <= |s|
    ensures i <= j <= |s| && (j < |s| ==> !IsAlpha(s[j]))
    ensures forall k :: i <= k < j ==> IsAlpha(s[k])
    decreases |s| - i
  {
    if i < |s| && IsAlpha(s[i]) then FindNonAlpha(s, i + 1) else i
  }

  function ReadName(s: string, i: nat): (r: Result<(string, nat)>)
    requires i <= |s|
    ensures r.Ok? ==> i <= r.value.1 <= |s| && '>' !in r.value.0
  {
    if i == |s| then Invalid(i, "Expected a name but found end of string")
    else if s[i] == '<' then
      var j := FindClose(s, i + 1);
      if j == |s| then Result<(string, nat)>.Invalid(j, "Expected to find closing '>', but found end of string")
      else Ok((s[i + 1..j], j + 1))
    else
      var j := FindNonAlpha(s, i);
      Ok((s[i..j], j))
  }

  const DEFAULT_TIME := 2 * 3600

  function ReadRuleTime(s: string, i: nat): (r: Result<(int, nat)>)
    requires i <= |s|
    ensures r.Ok? ==> i <= r.value.1 <= |s| && 0 <= r.value.0 < 25 * 3600
  {
    if i != |s| && s[i] == '/' then ReadUnsignedTime(s, i + 1) else Ok((DEFAULT_TIME, i))
  }

  function ReadJulian(s: string, i: nat): (r: Result<(Rule, nat)>)
    requires i <= |s|
    ensures r.Ok? ==> i <= r.value.1 <= |s| && RuleOk(r.value.0)
  {
    var (n, i) :- ReadUnsigned(s, i, 3, "Expected to find the Julian day [1, 365]");
    if !(1 <= n <= 365) then Invalid(i - 1, "Expected Julian day to be in the range [1, 365]")
    else Ok((J(n, DEFAULT_TIME), i))
  }

  function ReadZeroBased(s: string, i: nat): (r: Result<(Rule, nat)>)
    requires i <= |s|
    ensures r.Ok? ==> i <= r.value.1 <= |s| && RuleOk(r.value.0)
  {
    var (n, i) :- ReadUnsigned(s, i, 3, "");
    if n > 365 then Invalid(i - 1, "Expected Julian day to be in the range [0, 365]")
    else Ok((N(n, DEFAULT_TIME), i))
  }

  function ReadMonthWeek(s: string, i: nat): (r: Result<(Rule, nat)>)
    requires i <= |s|
    ensures r.Ok? ==> i <= r.value.1 <= |s| && RuleOk(r.value.0)
  {
    var (m, i) :- ReadUnsigned(s, i, 2, "Expected to find month [1, 12]");
    if !(1 <= m <= 12) then Invalid(i - 1, "Expected month to be in the range [1, 12]")
    else if i == |s| || s[i] != '.' then Invalid(i, "Expected '.' after month") else
    var (n, i) :- ReadUnsigned(s, i + 1, 1, "Expected to find week number [1, 5]");
    if !(1 <= n <= 5) then Invalid(i - 1, "Expected week number to be in the range [1, 5]")
    else if i == |s| || s[i] != '.' then Invalid(i, "Expected '.' after weekday index") else
    var (wd, i) :- ReadUnsigned(s, i + 1, 1, "Expected to find day of week [0, 6]");
    if wd > 6 then Invalid(i - 1, "Expected day of week to be in the range [0, 6]")
    else Ok((M(m, n, wd, DEFAULT_TIME), i))
  }

  /** The rule without its time of day, which is left at the default. */
  function ReadDay(s: string, i: nat): (r: Result<(Rule, nat)>)
    requires i <= |s|
    ensures r.Ok? ==> i <= r.value.1 <= |s| && RuleOk(r.value.0)
  {
    if i == |s| then Invalid(i, "Expected rule but found end of string")
    else if s[i] == 'J' then ReadJulian(s, i + 1)
    else if s[i] == 'M' then ReadMonthWeek(s, i + 1)
    else if IsDigit(s[i]) then ReadZeroBased(s, i)
    else Invalid(i, "Expected 'J', 'M', or a digit to start rule")
  }

  function ReadDate(s: string, i: nat): (r: Result<(Rule, nat)>)
    requires i <= |s|
    ensures r.Ok? ==> i <= r.value.1 <= |s| && RuleOk(r.value.0)
  {
    var (rule, i) :- ReadDay(s, i);
    var (t, i) :- ReadRuleTime(s, i);
    Ok((rule.(time := t), i))
  }

  /** The two rules from the ',' on. */
  function ReadRules(s: string, i: nat): (r: Result<(Rule, Rule)>)
    requires i <= |s|
    ensures r.Ok? ==> (r.value.0 == Off && r.value.1 == Off) || (RuleOk(r.value.0) && RuleOk(r.value.1))
  {
    if i == |s| then Ok((Off, Off))
    else if s[i] != ',' then Invalid(i, "Expecting end of string or ',' to start rule") else
    var (start, i) :- ReadDate(s, i + 1);
    if i == |s| || s[i] != ',' then Invalid(i, "Expecting ',' and then the ending rule") else
    var (end, i) :- ReadDate(s, i + 1);
    if i != |s| then Invalid(i, "Found unexpected trailing characters") else Ok((start, end))
  }

  const DEFAULT_SAVE := 3600

  /** The saving: an hour, unless a daylight offset is given. */
  function ReadSave(s: string, i: nat, offset: int): (r: Result<(int, nat)>)
    requires i <= |s|
    ensures r.Ok? ==> i <= r.value.1 <= |s|
    ensures r.Ok? ==> r.value.0 == DEFAULT_SAVE || -25 * 3600 < r.value.0 + offset < 25 * 3600
  {
    if i == |s| || s[i] == ',' then Ok((DEFAULT_SAVE, i)) else
    var (t, i) :- ReadSignedTime(s, i);
    Ok((-t - offset, i))
  }

  /** What the constructor checks and changes once everything is read. */
  function Settle(z: Zone, stdAt: nat, abbrevAt: nat): Result<Zone> {
    if !z.start.Off? then
      if |z.std| < 3 then Invalid(stdAt, "Zone with rules must have a std abbreviation of length 3 or greater")
      else if |z.dst| < 3 then
        Invalid(abbrevAt, "Zone with rules must have a daylight abbreviation of length 3 or greater")
      else Ok(z)
    else if |z.dst| >= 3 then Ok(z.(std := ""))
    else if |z.std| < 3 then Invalid(stdAt, "Zone must have at least one abbreviation of length 3 or greater")
    else Ok(z.(dst := "", save := 0))
  }

  /** The constructor. */
  function Parse(s: string): Result<Zone> {
    var (std, stdAt) :- ReadName(s, 0);
    var (t, i) :- ReadSignedTime(s, stdAt);
    var offset := -t;
    if i == |s| then Settle(Zone(std, "", offset, DEFAULT_SAVE, Off, Off), stdAt, stdAt) else
    var (dst, abbrevAt) :- ReadName(s, i);
    var (save, i) :- ReadSave(s, abbrevAt, offset);
    var (start, end) :- ReadRules(s, i);
    Settle(Zone(std, dst, offset, save, start, end), stdAt, abbrevAt)
  }

  /** Where a text is refused lies in the text or at its end. */
  predicate InText<T>(s: string, r: Result<T>) {
    r.Invalid? ==> 0 <= r.at <= |s|
  }

  lemma SecondsFault(s: string, i: nat, t: int)
    requires i <= |s|
    ensures InText(s, ReadSeconds(s, i, t))
  {
    hide MoreDigits;
  }

  lemma MinutesFault(s: string, i: nat, t: int)
    requires i <= |s|
    ensures InText(s, ReadMinutes(s, i, t))
  {
    hide MoreDigits, ReadSeconds;
    forall j: nat, u | j <= |s| ensures InText(s, ReadSeconds(s, j, u)) {
      SecondsFault(s, j, u);
    }
  }

  lemma TimeFault(s: string, i: nat)
    requires i <= |s|
    ensures InText(s, ReadUnsignedTime(s, i)) && InText(s, ReadSignedTime(s, i))
  {
    hide MoreDigits, ReadMinutes;
    forall j: nat, t | j <= |s| ensures InText(s, ReadMinutes(s, j, t)) {
      MinutesFault(s, j, t);
    }
  }

  lemma MonthWeekFault(s: string, i: nat)
    requires i <= |s|
    ensures InText(s, ReadMonthWeek(s, i))
  {
    hide MoreDigits;
  }

  lemma DayFault(s: string, i: nat)
    requires i <= |s|
    ensures InText(s, ReadDay(s, i))
  {
    hide MoreDigits, ReadMonthWeek;
    if i < |s| {
      MonthWeekFault(s, i + 1);
    }
  }

  lemma DateFault(s: string, i: nat)
    requires i <= |s|
    ensures InText(s, ReadDate(s, i))
  {
    hide ReadDay, ReadUnsignedTime;
    DayFault(s, i);
    if ReadDay(s, i).Ok? && ReadDay(s, i).value.1 < |s| {
      TimeFault(s, ReadDay(s, i).value.1 + 1);
    }
  }

  lemma RulesFault(s: string, i: nat)
    requires i <= |s|
    ensures InText(s, ReadRules(s, i))
  {
    hide ReadDate;
    if i < |s| {
      DateFault(s, i + 1);
      var r := ReadDate(s, i + 1);
      if r.Ok? && r.value.1 < |s| {
        DateFault(s, r.value.1 + 1);
      }
    }
  }

  lemma NameFault(s: string, i: nat)
    requires i <= |s|
    ensures InText(s, ReadName(s, i))
  {}

  lemma SaveFault(s: string, i: nat, offset: int)
    requires i <= |s|
    ensures InText(s, ReadSave(s, i, offset))
  {
    hide ReadSignedTime;
    TimeFault(s, i);
  }

  lemma FaultInText(s: string)
    ensures InText(s, Parse(s))
  {
    hide ReadSignedTime, ReadRules, ReadName, ReadSave;
    NameFault(s, 0);
    var name := ReadName(s, 0);
    if name.Ok? {
      TimeFault(s, name.value.1);
      var time := ReadSignedTime(s, name.value.1);
      if time.Ok? && time.value.1 < |s| {
        NameFault(s, time.value.1);
        var dst := ReadName(s, time.value.1);
        if dst.Ok? {
          SaveFault(s, dst.value.1, -time.value.0);
          var save := ReadSave(s, dst.value.1, -time.value.0);
          if save.Ok? {
            RulesFault(s, save.value.1);
          }
        }
      }
    }
  }

  // ----- texts within a text

  /** `t` stands at index `i` of `s`. */
  predicate Reads(s: string, i: int, t: string) {
    0 <= i && i + |t| <= |s| && s[i..i + |t|] == t
  }

  predicate DigitAt(s: string, i: int) {
    0 <= i < |s| && IsDigit(s[i])
  }

  lemma ReadsConcat(s: string, i: int, a: string, b: string)
    requires Reads(s, i, a + b)
    ensures Reads(s, i, a) && Reads(s, i + |a|, b)
  {
    assert s[i..i + |a|] == (a + b)[..|a|];
    assert s[i + |a|..i + |a| + |b|] == (a + b)[|a|..];
  }

  lemma {:induction false} MoreDigitsRead(s: string, i: nat, count: nat, limit: nat, u: nat, ds: string)
    requires AllDigits(ds) && Reads(s, i, ds) && count + |ds| <= limit
    requires count + |ds| == limit || !DigitAt(s, i + |ds|)
    ensures MoreDigits(s, i, count, limit, u) == (Value(ds, u), i + |ds|)
    decreases |ds|
  {
    if ds != [] {
      assert s[i] == ds[0];
      assert s[i + 1..i + |ds|] == ds[1..];
      MoreDigitsRead(s, i + 1, count + 1, limit, u * 10 + DigitValue(s[i]), ds[1..]);
    }
  }

  lemma ReadUnsignedReads(s: string, i: nat, limit: nat, message: string, ds: string)
    requires ds != [] && AllDigits(ds) && Reads(s, i, ds) && |ds| <= limit
    requires |ds| == limit || !DigitAt(s, i + |ds|)
    ensures ReadUnsigned(s, i, limit, message) == Ok((Value(ds, 0), i + |ds|))
  {
    assert s[i] == ds[0];
    assert s[i + 1..i + |ds|] == ds[1..];
    MoreDigitsRead(s, i + 1, 1, limit, DigitValue(s[i]), ds[1..]);
  }

  lemma AlphaRun(s: string, i: nat, nm: string)
    requires Reads(s, i, nm) && (forall k :: 0 <= k < |nm| ==> IsAlpha(nm[k]))
    requires i + |nm| == |s| || !IsAlpha(s[i + |nm|])
    ensures FindNonAlpha(s, i) == i + |nm|
  {
    var j := FindNonAlpha(s, i);
    assert forall k {:trigger s[k]} :: i <= k < i + |nm| ==> s[k] == s[i..i + |nm|][k - i];
  }

  predicate CharAt(s: string, i: int, c: char) {
    0 <= i < |s| && s[i] == c
  }

  lemma ReadsChar(s: string, i: nat, c: char, t: string)
    requires Reads(s, i, [c] + t)
    ensures CharAt(s, i, c) && Reads(s, i + 1, t)
  {
    ReadsConcat(s, i, [c], t);
    assert s[i] == s[i..i + 1][0];
  }

  lemma BoundsOf(s: string, i: int, t: string)
    requires Reads(s, i, t)
    ensures 0 <= i && i + |t| <= |s|
  {}

  lemma FirstChar(s: string, i: int, t: string)
    requires t != [] && Reads(s, i, t)
    ensures CharAt(s, i, t[0])
  {
    assert s[i] == s[i..i + |t|][0];
  }

  predicate CommaOrEnd(s: string, i: int) {
    i == |s| || CharAt(s, i, ',')
  }
}
