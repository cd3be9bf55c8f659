/** The constructor of `Posix::time_zone` as it runs: an index moves over the text in loops, and
    the fields of the zone are filled one after another (`Include/date/ptz.h`). */
module PosixParser {
  import opened Digits
  import opened PosixText
  import opened PosixZone

  method ScanUnsigned(s: string, start: nat, limit: nat, message: string) returns (r: Result<(nat, nat)>)
    requires start <= |s|
    ensures r == ReadUnsigned(s, start, limit, message)
  {
    if start == |s| || !IsDigit(s[start]) {
      return Invalid(start, message);
    }
    var u: nat := DigitValue(s[start]);
    var count: nat, i: nat := 1, start + 1;
    while count < limit && i != |s| && IsDigit(s[i])
      invariant i <= |s|
      invariant MoreDigits(s, i, count, limit, u) == MoreDigits(s, start + 1, 1, limit, DigitValue(s[start]))
      decreases |s| - i
    {
      u := u * 10 + DigitValue(s[i]);
      i, count := i + 1, count + 1;
    }
    r := Ok((u, i));
  }

  /** Characters are pushed one by one: up to the closing '>' of a quoted name, or as long as
      letters follow. */
  method ScanName(s: string, start: nat) returns (r: Result<(string, nat)>)
    requires start <= |s|
    ensures r == ReadName(s, start)
  {
    if start == |s| {
      return Invalid(start, "Expected a name but found end of string");
    }
    var name := "";
    var i := start;
    if s[i] == '<' {
      i := i + 1;
      while true
        invariant start + 1 <= i <= |s| && name == s[start + 1..i]
        invariant FindClose(s, i) == FindClose(s, start + 1)
        decreases |s| - i
      {
        if i == |s| {
          return Invalid(i, "Expected to find closing '>', but found end of string");
        }
        if s[i] == '>' {
          break;
        }
        name := name + [s[i]];
        i := i + 1;
      }
      i := i + 1;
    } else {
      while i != |s| && IsAlpha(s[i])
        invariant start <= i <= |s| && name == s[start..i]
        invariant FindNonAlpha(s, i) == FindNonAlpha(s, start)
        decreases |s| - i
      {
        name := name + [s[i]];
        i := i + 1;
      }
    }
    r := Ok((name, i));
  }

  method ScanUnsignedTime(s: string, start: nat) returns (r: Result<(int, nat)>)
    requires start <= |s|
    ensures r == ReadUnsignedTime(s, start)
  {
    hide ReadUnsigned, ReadMinutes;
    if start == |s| {
      return Invalid(start, "Expected to read unsigned time, but found end of string");
    }
    var x :- ScanUnsigned(s, start, 2, "Expected to find hours [0, 24]");
    if x.0 > 24 {
      return Invalid(x.1 - 1, "Expected hours to be in the range [0, 24]");
    }
    r := ScanMinutes(s, x.1, x.0 * 3600);
  }

  /** The minutes and seconds that may follow the hours `hours`. */
  method ScanMinutes(s: string, start: nat, hours: int) returns (r: Result<(int, nat)>)
    requires start <= |s|
    ensures r == ReadMinutes(s, start, hours)
  {
    hide ReadUnsigned, ReadSeconds;
    var t, i := hours, start;
    if i != |s| && s[i] == ':' {
      var x :- ScanUnsigned(s, i + 1, 2, "Expected to find minutes [0, 59]");
      if x.0 > 59 {
        return Invalid(x.1 - 1, "Expected minutes to be in the range [0, 59]");
      }
      t, i := t + x.0 * 60, x.1;
      r := ScanSeconds(s, i, t);
    } else {
      r := Ok((t, i));
    }
  }

  method ScanSeconds(s: string, start: nat, t: int) returns (r: Result<(int, nat)>)
    requires start <= |s|
    ensures r == ReadSeconds(s, start, t)
  {
    hide ReadUnsigned;
    if start == |s| || s[start] != ':' {
      return Ok((t, start));
    }
    var x :- ScanUnsigned(s, start + 1, 2, "Expected to find seconds [0, 59]");
    if x.0 > 59 {
      return Invalid(x.1 - 1, "Expected seconds to be in the range [0, 59]");
    }
    r := Ok((t + x.0, x.1));
  }

  method ScanSignedTime(s: string, start: nat) returns (r: Result<(int, nat)>)
    requires start <= |s|
    ensures r == ReadSignedTime(s, start)
  {
    hide ReadUnsignedTime;
    if start == |s| {
      return Invalid(start, "Expected to read signed time, but found end of string");
    }
    var negative, i := false, start;
    if s[i] == '-' {
      negative := true;
      i := i + 1;
    } else if s[i] == '+' {
      i := i + 1;
    }
    var t :- ScanUnsignedTime(s, i);
    r := Ok((if negative then -t.0 else t.0, t.1));
  }

  /** The month, week and weekday of a rule, from behind its 'M'. */
  method ScanMonthWeek(s: string, start: nat) returns (r: Result<(Rule, nat)>)
    requires start <= |s|
    ensures r == ReadMonthWeek(s, start)
  {
    hide ReadUnsigned;
    var m :- ScanUnsigned(s, start, 2, "Expected to find month [1, 12]");
    var i := m.1;
    if !(1 <= m.0 <= 12) {
      return Invalid(i - 1, "Expected month to be in the range [1, 12]");
    }
    if i == |s| || s[i] != '.' {
      return Invalid(i, "Expected '.' after month");
    }
    var n :- ScanUnsigned(s, i + 1, 1, "Expected to find week number [1, 5]");
    i := n.1;
    if !(1 <= n.0 <= 5) {
      return Invalid(i - 1, "Expected week number to be in the range [1, 5]");
    }
    if i == |s| || s[i] != '.' {
      return Invalid(i, "Expected '.' after weekday index");
    }
    var wd :- ScanUnsigned(s, i + 1, 1, "Expected to find day of week [0, 6]");
    i := wd.1;
    if wd.0 > 6 {
      return Invalid(i - 1, "Expected day of week to be in the range [0, 6]");
    }
    r := Ok((M(m.0, n.0, wd.0, DEFAULT_TIME), i));
  }

  method ScanDay(s: string, start: nat) returns (r: Result<(Rule, nat)>)
    requires start <= |s|
    ensures r == ReadDay(s, start)
  {
    hide ReadUnsigned, ReadMonthWeek;
    if start == |s| {
      return Invalid(start, "Expected rule but found end of string");
    }
    if s[start] == 'J' {
      var n :- ScanUnsigned(s, start + 1, 3, "Expected to find the Julian day [1, 365]");
      if !(1 <= n.0 <= 365) {
        return Invalid(n.1 - 1, "Expected Julian day to be in the range [1, 365]");
      }
      r := Ok((J(n.0, DEFAULT_TIME), n.1));
    } else if s[start] == 'M' {
      r := ScanMonthWeek(s, start + 1);
    } else if IsDigit(s[start]) {
      var n :- ScanUnsigned(s, start, 3, "");
      if n.0 > 365 {
        return Invalid(n.1 - 1, "Expected Julian day to be in the range [0, 365]");
      }
      r := Ok((N(n.0, DEFAULT_TIME), n.1));
    } else {
      r := Invalid(start, "Expected 'J', 'M', or a digit to start rule");
    }
  }

  lemma DefaultTime(s: string, start: nat)
    requires start <= |s| && ReadDay(s, start).Ok?
    ensures ReadDay(s, start).value.0.(time := DEFAULT_TIME) == ReadDay(s, start).value.0
  {
    hide ReadUnsigned;
  }

  method ScanDate(s: string, start: nat) returns (r: Result<(Rule, nat)>)
    requires start <= |s|
    ensures r == ReadDate(s, start)
  {
    hide ReadDay, ReadUnsignedTime;
    var day :- ScanDay(s, start);
    DefaultTime(s, start);
    var rule, i := day.0, day.1;
    if i != |s| && s[i] == '/' {
      var t :- ScanUnsignedTime(s, i + 1);
      rule, i := rule.(time := t.0), t.1;
    }
    r := Ok((rule, i));
  }

  class TimeZone {
    var std: string
    var dst: string
    var offset: int
    var save: int
    var start: Rule
    var end: Rule

    constructor ()
      ensures AsZone() == Zone("", "", 0, DEFAULT_SAVE, Off, Off)
    {
      std, dst, offset, save, start, end := "", "", 0, DEFAULT_SAVE, Off, Off;
    }

    function AsZone(): Zone
      reads this
    {
      Zone(std, dst, offset, save, start, end)
    }

    /** The body of the constructor, run on the initial field values. */
    method Construct(s: string) returns (r: Result<()>)
      requires AsZone() == Zone("", "", 0, DEFAULT_SAVE, Off, Off)
      modifies this
      ensures Parse(s).Ok? ==> r == Ok(()) && AsZone() == Parse(s).value
      ensures Parse(s).Invalid? ==> r == Invalid(Parse(s).at, Parse(s).message)
    {
      hide ReadName, ReadSignedTime, ReadSave, ReadRules, RuleOk, PosixText.Settle;
      var name :- ScanName(s, 0);
      std := name.0;
      var stdAt := name.1;
      var abbrevAt := stdAt;
      var time :- ScanSignedTime(s, stdAt);
      offset := -time.0;
      var i := time.1;
      if i != |s| {
        name :- ScanName(s, i);
        dst := name.0;
        abbrevAt := name.1;
        i :- TakeSave(s, abbrevAt);
        var _ :- TakeRules(s, i);
      }
      r := Settle(stdAt, abbrevAt);
    }

    /** The daylight offset, if one is given. */
    method TakeSave(s: string, at: nat) returns (r: Result<nat>)
      requires at <= |s| && save == DEFAULT_SAVE
      modifies this`save
      ensures match ReadSave(s, at, offset)
              case Ok(p) => r == Ok(p.1) && save == p.0
              case Invalid(i, message) => r == Invalid(i, message)
    {
      hide ReadSignedTime;
      var i := at;
      if i != |s| && s[i] != ',' {
        var time :- ScanSignedTime(s, i);
        save := -time.0 - offset;
        i := time.1;
      }
      r := Ok(i);
    }

    /** The two rules, if anything is left. */
    method TakeRules(s: string, at: nat) returns (r: Result<()>)
      requires at <= |s| && start == end == Off
      modifies this`start, this`end
      ensures match ReadRules(s, at)
              case Ok(p) => r == Ok(()) && start == p.0 && end == p.1
              case Invalid(i, message) => r == Invalid(i, message)
    {
      hide ReadDate, RuleOk;
      if at != |s| {
        if s[at] != ',' {
          return Invalid(at, "Expecting end of string or ',' to start rule");
        }
        var date :- ScanDate(s, at + 1);
        start := date.0;
        var i := date.1;
        if i == |s| || s[i] != ',' {
          return Invalid(i, "Expecting ',' and then the ending rule");
        }
        date :- ScanDate(s, i + 1);
        end := date.0;
        i := date.1;
        if i != |s| {
          return Invalid(i, "Found unexpected trailing characters");
        }
      }
      r := Ok(());
    }

    /** The checks at the end of the constructor. */
    method Settle(stdAt: nat, abbrevAt: nat) returns (r: Result<()>)
      modifies this
      ensures var z := PosixText.Settle(old(AsZone()), stdAt, abbrevAt);
              && (z.Ok? ==> r == Ok(()) && AsZone() == z.value)
              && (z.Invalid? ==> r == Invalid(z.at, z.message))
    {
      if !start.Off? {
        if |std| < 3 {
          return Invalid(stdAt, "Zone with rules must have a std abbreviation of length 3 or greater");
        }
        if |dst| < 3 {
          return Invalid(abbrevAt, "Zone with rules must have a daylight abbreviation of length 3 or greater");
        }
      } else if |dst| >= 3 {
        std := "";
      } else if |std| < 3 {
        return Invalid(stdAt, "Zone must have at least one abbreviation of length 3 or greater");
      } else {
        dst := "";
        save := 0;
      }
      r := Ok(());
    }
  }
}
