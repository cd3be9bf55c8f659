/** The command line: the token loop of `OptionParser` in `Include/cxxopts.hpp`, for option tables
    without positional options, as a function of the arguments. */
module Options {
  import opened Texts
  import IntegerParser

  datatype Kind = BoolKind | IntKind(t: IntegerParser.IntType) | StringKind | ListKind

  datatype Stored = BoolVal(b: bool) | IntVal(i: int) | StringVal(s: string) | ListVal(l: seq<string>)

  /** `OptionDetails` with its value. */
  datatype Details = Details(short: string, long: seq<string>, kind: Kind, hasDefault: bool, defaultValue: string,
                             hasImplicit: bool, implicitValue: string)
  {
    function EssentialName(): string {
      if long == [] then short else long[0]
    }
  }

  /** The option table: each name leads to an entry of `details`. `order` is the order in which the
      names are visited, which the hash map leaves open. */
  datatype Table = Table(names: map<string, nat>, details: seq<Details>, order: seq<string>, allowUnrecognised: bool)
  {
    ghost predicate Valid() {
      && (forall n :: n in names ==> names[n] < |details|)
      && (forall n :: n in order ==> n in names)
      && (forall k :: 0 <= k < |details| && details[k].kind.IntKind? ==> IntegerParser.Supported(details[k].kind.t))
    }
  }

  datatype OptionValue = OptionValue(value: Maybe, count: nat, isDefault: bool)

  datatype Maybe = None | Some(stored: Stored)

  const NO_VALUE := OptionValue(None, 0, false)

  datatype KeyValue = KeyValue(key: string, value: string)

  datatype State = State(parsed: map<nat, OptionValue>, sequential: seq<KeyValue>, defaults: seq<KeyValue>,
                         unmatched: seq<string>)

  datatype ParseError =
    | InvalidOptionSyntax(arg: string)
    | NoSuchOption(name: string)
    | MissingArgument(name: string)
    | IncorrectArgumentType(text: string)

  datatype Outcome<+T> = Ok(value: T) | Failed(error: ParseError) {
    predicate IsFailure() {
      Failed?
    }

    function PropagateFailure<U>(): Outcome<U>
      requires Failed?
    {
      Failed(error)
    }

    function Extract(): T
      requires Ok?
    {
      value
    }
  }

  // ----- values

  function Fresh(kind: Kind): Stored {
    match kind
    case BoolKind => BoolVal(false)
    case IntKind(_) => IntVal(0)
    case StringKind => StringVal("")
    case ListKind => ListVal([])
  }

  /** The pieces `std::getline` takes from a text that is not empty. */
  function SplitList(text: string): seq<string> {
    if text == "" then []
    else
      var n := FindChar(text, ',');
      [text[..n]] + (if n == |text| then [] else SplitList(text[n + 1..]))
  }

  /** `parse_value`: a list is appended to, any other value is replaced. */
  function ParseValue(kind: Kind, stored: Stored, text: string): Outcome<Stored>
    requires kind.IntKind? ==> IntegerParser.Supported(kind.t)
  {
    match kind
    case BoolKind =>
      if text in ["t", "T", "true", "True", "1"] then Ok(BoolVal(true))
      else if text in ["f", "F", "false", "False", "0"] then Ok(BoolVal(false))
      else Failed(IncorrectArgumentType(text))
    case IntKind(t) =>
      (match IntegerParser.Meaning(t, text)
       case Parsed(v) => Ok(IntVal(v))
       case IncorrectArgumentType => Failed(IncorrectArgumentType(text)))
    case StringKind => Ok(StringVal(text))
    case ListKind =>
      var l := if stored.ListVal? then stored.l else [];
      Ok(ListVal(l + (if text == "" then [""] else SplitList(text))))
  }

  function Lookup(parsed: map<nat, OptionValue>, k: nat): OptionValue {
    if k in parsed then parsed[k] else NO_VALUE
  }

  /** `OptionValue::parse` and the entry in the sequence. */
  function ParseOption(o: Table, st: State, k: nat, text: string): Outcome<State>
    requires o.Valid() && k < |o.details|
  {
    var d := o.details[k];
    var v := Lookup(st.parsed, k);
    var stored :- ParseValue(d.kind, if v.value.None? then Fresh(d.kind) else v.value.stored, text);
    Ok(st.(parsed := st.parsed[k := v.(value := Some(stored), count := v.count + 1)],
           sequential := st.sequential + [KeyValue(d.EssentialName(), text)]))
  }

  /** `checked_parse_arg` on the arguments that follow; tells how many of them it takes. */
  function CheckedParseArg(o: Table, st: State, k: nat, name: string, rest: seq<string>): (r: Outcome<(State, nat)>)
    requires o.Valid() && k < |o.details|
    ensures r.Ok? ==> r.value.1 <= |rest|
  {
    var d := o.details[k];
    if d.hasImplicit then
      var st :- ParseOption(o, st, k, d.implicitValue);
      Ok((st, 0))
    else if rest == [] then Failed(MissingArgument(name))
    else
      var st :- ParseOption(o, st, k, rest[0]);
      Ok((st, 1))
  }

  // ----- arguments

  predicate IsAlnum(c: char) {
    IntegerParser.IsAlnum(c)
  }

  predicate IsNameChar(c: char) {
    IsAlnum(c) || c == '-' || c == '_' || c == '.'
  }

  /** What the `.` of a regular expression matches. */
  predicate SingleLine(s: string) {
    forall k :: 0 <= k < |s| ==> s[k] != '\n' && s[k] != '\r'
  }

  datatype ArguDesc = NoMatch | Long(name: string, setValue: bool, value: string) | Group(letters: string)

  function NameEnd(s: string, i: nat): (j: nat)
    requires i <= |s|
    ensures i <= j <= |s| && (j < |s| ==> !IsNameChar(s[j]))
    ensures forall k :: i <= k < j ==> IsNameChar(s[k])
    decreases |s| - i
  {
    if i < |s| && IsNameChar(s[i]) then NameEnd(s, i + 1) else i
  }

  /** `ParseArgument`: the recogniser of `option_pattern`. */
  function ParseArgument(arg: string): ArguDesc {
    if |arg| >= 3 && arg[..2] == "--" && IsAlnum(arg[2]) then
      var j := NameEnd(arg, 2);
      if j < 4 then NoMatch
      else if j == |arg| then Long(arg[2..], false, "")
      else if arg[j] == '=' && SingleLine(arg[j + 1..]) then Long(arg[2..j], true, arg[j + 1..])
      else NoMatch
    else if |arg| >= 2 && arg[0] == '-' && IsAlnum(arg[1]) && SingleLine(arg[2..]) then Group(arg[1..])
    else NoMatch
  }

  /** The letters of a group from `i` on; tells how many of the following arguments are taken. */
  function ParseGroup(o: Table, st: State, s: string, i: nat, rest: seq<string>): (r: Outcome<(State, nat)>)
    requires o.Valid() && i <= |s|
    ensures r.Ok? ==> r.value.1 <= |rest|
    decreases |s| - i
  {
    if i == |s| then Ok((st, 0))
    else
      var name := [s[i]];
      if name !in o.names then
        if o.allowUnrecognised then ParseGroup(o, st.(unmatched := st.unmatched + ["-" + name]), s, i + 1, rest)
        else Failed(NoSuchOption(name))
      else
        var k := o.names[name];
        if i + 1 == |s| then CheckedParseArg(o, st, k, name, rest)
        else if o.details[k].hasImplicit then
          var st :- ParseOption(o, st, k, o.details[k].implicitValue);
          ParseGroup(o, st, s, i + 1, rest)
        else
          var st :- ParseOption(o, st, k, s[i + 1..]);
          Ok((st, 0))
  }

  /** One round of the token loop on an argument other than `--`. */
  function Step(o: Table, st: State, arg: string, rest: seq<string>): (r: Outcome<(State, nat)>)
    requires o.Valid()
    ensures r.Ok? ==> r.value.1 <= |rest|
  {
    match ParseArgument(arg)
    case NoMatch =>
      if |arg| >= 2 && arg[0] == '-' && !o.allowUnrecognised then Failed(InvalidOptionSyntax(arg))
      else Ok((st.(unmatched := st.unmatched + [arg]), 0))
    case Group(letters) => ParseGroup(o, st, letters, 0, rest)
    case Long(name, setValue, value) =>
      if name !in o.names then
        if o.allowUnrecognised then Ok((st.(unmatched := st.unmatched + [arg]), 0))
        else Failed(NoSuchOption(name))
      else if setValue then
        var st :- ParseOption(o, st, o.names[name], value);
        Ok((st, 0))
      else CheckedParseArg(o, st, o.names[name], name, rest)
  }

  /** The token loop: the state it ends in and what a `--` leaves. */
  datatype Tokens = Tokens(st: State, dashes: bool, rest: seq<string>)

  function Run(o: Table, st: State, args: seq<string>): Outcome<Tokens>
    requires o.Valid()
    decreases |args|
  {
    if args == [] then Ok(Tokens(st, false, []))
    else if args[0] == "--" then Ok(Tokens(st, true, args[1..]))
    else
      var (st, taken) :- Step(o, st, args[0], args[1..]);
      Run(o, st, args[1 + taken..])
  }

  // ----- after the loop

  /** Defaults of the options that were not given, in the order of the names. */
  function Defaults(o: Table, st: State, i: nat): Outcome<State>
    requires o.Valid() && i <= |o.order|
    decreases |o.order| - i
  {
    if i == |o.order| then Ok(st)
    else
      var k := o.names[o.order[i]];
      var d := o.details[k];
      var v := Lookup(st.parsed, k);
      if d.hasDefault && v.count == 0 && !v.isDefault then
        var stored :- ParseValue(d.kind, if v.value.None? then Fresh(d.kind) else v.value.stored, d.defaultValue);
        Defaults(o, st.(parsed := st.parsed[k := v.(value := Some(stored), isDefault := true)],
                        defaults := st.defaults + [KeyValue(d.EssentialName(), d.defaultValue)]), i + 1)
      else
        Defaults(o, st.(parsed := st.parsed[k := v]), i + 1)
  }

  const START := State(map[], [], [], [])

  function Finish(o: Table, t: Tokens): Outcome<State>
    requires o.Valid()
  {
    var st :- Defaults(o, t.st, 0);
    Ok(st.(unmatched := st.unmatched + t.rest))
  }

  /** `OptionParser::parse` on the arguments after the program name. */
  function Parse(o: Table, args: seq<string>): Outcome<State>
    requires o.Valid()
  {
    var t :- Run(o, START, args);
    Finish(o, t)
  }

  // ----- spellings

  predicate ShortName(n: string) {
    |n| == 1 && IsAlnum(n[0])
  }

  predicate LongName(n: string) {
    |n| >= 2 && IsAlnum(n[0]) && forall k :: 0 <= k < |n| ==> IsNameChar(n[k])
  }

  lemma NameEndIs(s: string, i: nat, j: nat)
    requires i <= j <= |s| && (forall k :: i <= k < j ==> IsNameChar(s[k])) && (j < |s| ==> !IsNameChar(s[j]))
    ensures NameEnd(s, i) == j
  {}

  lemma LongArgument(n: string)
    requires LongName(n)
    ensures ParseArgument("--" + n) == Long(n, false, "")
  {
    var arg := "--" + n;
    assert arg[..2] == "--" && arg[2..] == n;
    NameEndIs(arg, 2, |arg|);
  }

  lemma LongArgumentWithValue(n: string, v: string)
    requires LongName(n) && SingleLine(v)
    ensures ParseArgument("--" + n + "=" + v) == Long(n, true, v)
  {
    var arg := "--" + n + "=" + v;
    var j := 2 + |n|;
    assert arg[..2] == "--" && arg[2..j] == n && arg[j] == '=' && arg[j + 1..] == v;
    NameEndIs(arg, 2, j);
  }

  lemma GroupArgument(s: string)
    requires s != "" && IsAlnum(s[0]) && SingleLine(s[1..])
    ensures ParseArgument("-" + s) == Group(s)
  {
    var arg := "-" + s;
    assert arg[1..] == s && arg[2..] == s[1..];
    assert arg[..2] != "--" || |arg| < 3 by { assert arg[1] == s[0]; }
  }

  /** The four ways to give an option its value. */
  datatype Spelling = Attached(short: string) | Separate(short: string) | LongSeparate(long: string) | LongEquals(long: string)

  function Spell(s: Spelling, v: string): seq<string> {
    match s
    case Separate(c) => ["-" + c, v]
    case Attached(c) => ["-" + (c + v)]
    case LongSeparate(l) => ["--" + l, v]
    case LongEquals(l) => ["--" + l + "=" + v]
  }

  /** The value can stand in this spelling: not empty behind a letter, and without line ends where the
      pattern's `.` has to match it. */
  predicate Spellable(s: Spelling, v: string) {
    match s
    case Separate(_) => true
    case Attached(_) => v != "" && SingleLine(v)
    case LongSeparate(_) => true
    case LongEquals(_) => SingleLine(v)
  }

  /** The spelling names option `k`. */
  predicate Names(o: Table, s: Spelling, k: nat) {
    match s
    case Separate(c) => ShortName(c) && c in o.names && o.names[c] == k
    case Attached(c) => ShortName(c) && c in o.names && o.names[c] == k
    case LongSeparate(l) => LongName(l) && l in o.names && o.names[l] == k
    case LongEquals(l) => LongName(l) && l in o.names && o.names[l] == k
  }

  /** Every spelling of a value does what giving the value to the option does, whatever follows. */
  lemma SpellingMeaning(o: Table, st: State, s: Spelling, k: nat, v: string, post: seq<string>)
    requires o.Valid() && k < |o.details| && Names(o, s, k) && Spellable(s, v)
    requires o.details[k].hasImplicit ==> s.LongEquals?
    ensures Run(o, st, Spell(s, v) + post)
            == (var r := ParseOption(o, st, k, v); if r.Failed? then Failed(r.error) else Run(o, r.value, post))
  {
    hide ParseOption, ParseArgument;
    var args := Spell(s, v) + post;
    match s
    case Separate(c) =>
      GroupArgument(c);
      assert [c[0]] == c && ("-" + c)[1] == c[0];
      assert args[0] == "-" + c && args[1..] == [v] + post && args[2..] == post;
    case Attached(c) =>
      GroupArgument(c + v);
      assert (c + v)[1..] == v && [(c + v)[0]] == c && ("-" + (c + v))[1] == c[0];
      assert args[0] == "-" + (c + v) && args[1..] == post;
    case LongSeparate(l) =>
      LongArgument(l);
      assert args[0] == "--" + l && args[1..] == [v] + post && args[2..] == post;
    case LongEquals(l) =>
      LongArgumentWithValue(l, v);
      assert args[0] == "--" + l + "=" + v && args[1..] == post;
  }

  // ----- groups of flags

  /** Letters given one by one, the last with what follows. */
  function OneByOne(s: string): seq<string> {
    if s == "" then [] else ["-" + [s[0]]] + OneByOne(s[1..])
  }

  /** A letter that takes nothing of its group: a flag with an implicit value, or a letter that is
      passed over. */
  predicate StandsAlone(o: Table, c: char)
    requires o.Valid()
  {
    if [c] in o.names then o.details[o.names[[c]]].hasImplicit else o.allowUnrecognised
  }

  /** A group reads the same from any letter on as the rest of it alone. */
  lemma {:induction false} GroupSuffix(o: Table, st: State, s: string, i: nat, rest: seq<string>)
    requires o.Valid() && i <= |s|
    ensures ParseGroup(o, st, s, i, rest) == ParseGroup(o, st, s[i..], 0, rest)
    decreases |s| - i
  {
    GroupShift(o, st, s, i, s[i..], 0, rest);
  }

  lemma {:induction false} GroupShift(o: Table, st: State, s: string, i: nat, t: string, j: nat, rest: seq<string>)
    requires o.Valid() && i <= |s| && j <= |t| && s[i..] == t[j..]
    ensures ParseGroup(o, st, s, i, rest) == ParseGroup(o, st, t, j, rest)
    decreases |s| - i
  {
    hide ParseOption, CheckedParseArg;
    if i < |s| {
      assert s[i] == s[i..][0] == t[j..][0] == t[j];
      assert s[i + 1..] == s[i..][1..] == t[j..][1..] == t[j + 1..];
      var name := [s[i]];
      if name !in o.names {
        if o.allowUnrecognised {
          GroupShift(o, st.(unmatched := st.unmatched + ["-" + name]), s, i + 1, t, j + 1, rest);
        }
      } else if i + 1 < |s| && o.details[o.names[name]].hasImplicit {
        var r := ParseOption(o, st, o.names[name], o.details[o.names[name]].implicitValue);
        if r.Ok? {
          GroupShift(o, r.value, s, i + 1, t, j + 1, rest);
        }
      }
    }
  }

  /** What a letter that stands alone does to the state. */
  function Flag(o: Table, st: State, c: char): Outcome<State>
    requires o.Valid()
  {
    if [c] in o.names then ParseOption(o, st, o.names[[c]], o.details[o.names[[c]]].implicitValue)
    else Ok(st.(unmatched := st.unmatched + ["-" + [c]]))
  }

  lemma GroupHead(o: Table, st: State, s: string, rest: seq<string>)
    requires o.Valid() && s != "" && StandsAlone(o, s[0])
    ensures ParseGroup(o, st, s, 0, rest)
            == (var r := Flag(o, st, s[0]); if r.Failed? then Failed(r.error) else ParseGroup(o, r.value, s[1..], 0, rest))
  {
    hide ParseOption;
    var r := Flag(o, st, s[0]);
    if r.Ok? {
      GroupSuffix(o, r.value, s, 1, rest);
    }
  }

  predicate Letters(s: string) {
    forall k :: 0 <= k < |s| ==> IsAlnum(s[k])
  }

  lemma RunGroup(o: Table, st: State, s: string, post: seq<string>)
    requires o.Valid() && s != "" && IsAlnum(s[0]) && SingleLine(s[1..])
    ensures Run(o, st, ["-" + s] + post)
            == (var r := ParseGroup(o, st, s, 0, post);
                if r.Failed? then Failed(r.error) else Run(o, r.value.0, post[r.value.1..]))
  {
    hide ParseGroup, ParseArgument;
    GroupArgument(s);
    var args := ["-" + s] + post;
    assert args[0] == "-" + s && ("-" + s)[1] == s[0] && args[1..] == post;
    var r := ParseGroup(o, st, s, 0, post);
    if r.Ok? {
      assert args[1 + r.value.1..] == post[r.value.1..];
    }
  }

  /** A group of letters whose flags, all but the last, stand alone is the same as the letters one by
      one; the last may still take the argument that follows. */
  lemma {:induction false} GroupIsOneByOne(o: Table, st: State, s: string, post: seq<string>)
    requires o.Valid() && s != "" && Letters(s) && (forall k :: 0 <= k < |s| - 1 ==> StandsAlone(o, s[k]))
    ensures Run(o, st, ["-" + s] + post) == Run(o, st, OneByOne(s) + post)
    decreases |s|
  {
    hide Run, ParseGroup, Flag;
    if |s| == 1 {
      assert [s[0]] == s;
      assert OneByOne(s) + post == ["-" + s] + post;
    } else {
      var c, t := [s[0]], s[1..];
      var rest := OneByOne(t) + post;
      assert OneByOne(s) + post == ["-" + c] + rest;
      RunGroup(o, st, s, post);
      RunGroup(o, st, c, rest);
      GroupHead(o, st, s, post);
      GroupHead(o, st, c, rest);
      var r := Flag(o, st, s[0]);
      assert c[1..] == "";
      if r.Ok? {
        ParseNoLetters(o, r.value, rest);
        RunGroup(o, r.value, t, post);
        GroupIsOneByOne(o, r.value, t, post);
      }
    }
  }

  lemma ParseNoLetters(o: Table, st: State, rest: seq<string>)
    requires o.Valid()
    ensures ParseGroup(o, st, "", 0, rest) == Ok((st, 0)) && rest[0..] == rest
  {}

  // ----- inside any argument vector

  /** The outcome does not come from the arguments having ended. */
  predicate Settled<T>(r: Outcome<T>) {
    r.Failed? ==> !r.error.MissingArgument?
  }

  lemma {:induction false} StepPrefix(o: Table, st: State, arg: string, rest: seq<string>, more: seq<string>)
    requires o.Valid() && Settled(Step(o, st, arg, rest))
    ensures Step(o, st, arg, rest + more) == Step(o, st, arg, rest)
  {
    hide ParseOption, ParseArgument;
    match ParseArgument(arg)
    case NoMatch =>
    case Group(letters) => GroupPrefix(o, st, letters, 0, rest, more);
    case Long(name, _, _) =>
  }

  lemma {:induction false} GroupPrefix(o: Table, st: State, s: string, i: nat, rest: seq<string>, more: seq<string>)
    requires o.Valid() && i <= |s| && Settled(ParseGroup(o, st, s, i, rest))
    ensures ParseGroup(o, st, s, i, rest + more) == ParseGroup(o, st, s, i, rest)
    decreases |s| - i
  {
    hide ParseOption;
    if i < |s| {
      var name := [s[i]];
      if name !in o.names {
        if o.allowUnrecognised {
          GroupPrefix(o, st.(unmatched := st.unmatched + ["-" + name]), s, i + 1, rest, more);
        }
      } else if i + 1 < |s| && o.details[o.names[name]].hasImplicit {
        var r := ParseOption(o, st, o.names[name], o.details[o.names[name]].implicitValue);
        if r.Ok? {
          GroupPrefix(o, r.value, s, i + 1, rest, more);
        }
      }
    }
  }

  /** What follows `pre` is read as arguments of its own, if the loop gets that far: no `--` was met
      and no value is missing. */
  predicate EndsBefore(o: Table, st: State, pre: seq<string>)
    requires o.Valid()
  {
    var r := Run(o, st, pre);
    Settled(r) && (r.Ok? ==> !r.value.dashes)
  }

  /** What a vector does is what its front does, followed by what the rest does unless the front
      fails. */
  lemma {:induction false} RunConcat(o: Table, st: State, pre: seq<string>, rest: seq<string>)
    requires o.Valid() && EndsBefore(o, st, pre)
    ensures var r := Run(o, st, pre);
            Run(o, st, pre + rest) == if r.Failed? then Failed(r.error) else Run(o, r.value.st, rest)
    decreases |pre|
  {
    hide Step;
    if pre == [] {
      assert pre + rest == rest;
    } else {
      var args := pre + rest;
      assert args[0] == pre[0] && args[1..] == pre[1..] + rest;
      StepPrefix(o, st, pre[0], pre[1..], rest);
      var step := Step(o, st, pre[0], pre[1..]);
      if step.Ok? {
        var r := step.value;
        assert args[1 + r.1..] == pre[1 + r.1..] + rest;
        RunConcat(o, r.0, pre[1 + r.1..], rest);
      }
    }
  }

  /** Rewriting an option of any argument vector from one spelling to another leaves the whole parse
      result unchanged: sequence, counts, values, defaults, unmatched arguments and errors. */
  lemma SpellingInvariance(o: Table, pre: seq<string>, a: Spelling, b: Spelling, k: nat, v: string, post: seq<string>)
    requires o.Valid() && k < |o.details| && Names(o, a, k) && Names(o, b, k) && Spellable(a, v) && Spellable(b, v)
    requires o.details[k].hasImplicit ==> a.LongEquals? && b.LongEquals?
    requires EndsBefore(o, START, pre)
    ensures Parse(o, pre + Spell(a, v) + post) == Parse(o, pre + Spell(b, v) + post)
  {
    hide Run, ParseOption, Finish, Spell, Names;
    assert pre + Spell(a, v) + post == pre + (Spell(a, v) + post);
    assert pre + Spell(b, v) + post == pre + (Spell(b, v) + post);
    RunConcat(o, START, pre, Spell(a, v) + post);
    RunConcat(o, START, pre, Spell(b, v) + post);
    if Run(o, START, pre).Ok? {
      SpellingMeaning(o, Run(o, START, pre).value.st, a, k, v, post);
      SpellingMeaning(o, Run(o, START, pre).value.st, b, k, v, post);
    }
  }

  /** Likewise for a group of flags and the same flags one by one. */
  lemma GroupInvariance(o: Table, pre: seq<string>, s: string, post: seq<string>)
    requires o.Valid() && s != "" && Letters(s) && (forall k :: 0 <= k < |s| - 1 ==> StandsAlone(o, s[k]))
    requires EndsBefore(o, START, pre)
    ensures Parse(o, pre + ["-" + s] + post) == Parse(o, pre + OneByOne(s) + post)
  {
    hide Run, Finish, StandsAlone, OneByOne, Letters, Settled;
    assert pre + ["-" + s] + post == pre + (["-" + s] + post);
    assert pre + OneByOne(s) + post == pre + (OneByOne(s) + post);
    RunConcat(o, START, pre, ["-" + s] + post);
    RunConcat(o, START, pre, OneByOne(s) + post);
    if Run(o, START, pre).Ok? {
      GroupIsOneByOne(o, Run(o, START, pre).value.st, s, post);
    }
  }
}
