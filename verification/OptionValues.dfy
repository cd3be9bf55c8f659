/** What a parse result holds, told by the command line alone: the values, counts, sequence, defaults
    and unmatched arguments that `OptionParser` of `Include/cxxopts.hpp` makes of a line of options in
    any spelling, and the error for the first argument it refuses. */
module OptionValues {
  import opened Options
  import opened Texts
  import IntegerParser

  // ----- command lines

  /** An option with a value in one of its spellings, an option with an implicit value by its name
      alone, or an argument that is no option. */
  datatype Given = Valued(spelling: Spelling, option: nat, value: string) | Bare(option: nat, name: string) | Operand(arg: string)

  function Words(g: Given): seq<string> {
    match g
    case Valued(s, _, v) => Spell(s, v)
    case Bare(_, n) => [(if |n| == 1 then "-" else "--") + n]
    case Operand(arg) => [arg]
  }

  function Line(given: seq<Given>): seq<string> {
    if given == [] then [] else Words(given[0]) + Line(given[1..])
  }

  ghost predicate Proper(o: Table, g: Given)
    requires o.Valid()
  {
    match g
    case Valued(s, k, v) =>
      k < |o.details| && Names(o, s, k) && Spellable(s, v) && (o.details[k].hasImplicit ==> s.LongEquals?)
    case Bare(k, n) =>
      k < |o.details| && (ShortName(n) || LongName(n)) && n in o.names && o.names[n] == k && o.details[k].hasImplicit
    case Operand(arg) => PassedOver(o, arg)
  }

  ghost predicate AllProper(o: Table, given: seq<Given>)
    requires o.Valid()
  {
    forall i :: 0 <= i < |given| ==> Proper(o, given[i])
  }

  ghost predicate LongForm(arg: string, n: string, setValue: bool, v: string) {
    LongName(n) && if setValue then SingleLine(v) && arg == "--" + n + "=" + v else v == "" && arg == "--" + n
  }

  predicate GroupForm(arg: string, s: string) {
    s != "" && IsAlnum(s[0]) && SingleLine(s[1..]) && arg == "-" + s
  }

  ghost predicate NoForm(arg: string) {
    && (forall n, setValue, v :: !LongForm(arg, n, setValue, v))
    && (forall s :: !GroupForm(arg, s))
  }

  /** Arguments that do not begin like an option, and if the parser allows what it does not recognise,
      those that have no option's form or an unknown name. */
  ghost predicate PassedOver(o: Table, arg: string) {
    || |arg| < 2 || arg[0] != '-'
    || (o.allowUnrecognised && arg != "--"
        && (NoForm(arg) || exists n, setValue, v :: LongForm(arg, n, setValue, v) && n !in o.names))
  }

  // ----- what a line says

  function TextOf(o: Table, g: Given): string
    requires o.Valid() && Proper(o, g)
  {
    match g
    case Valued(_, _, v) => v
    case Bare(k, _) => o.details[k].implicitValue
    case Operand(arg) => arg
  }

  /** The texts given to option `k`, in order. */
  ghost function TextsOf(o: Table, given: seq<Given>, k: nat): seq<string>
    requires o.Valid() && AllProper(o, given)
  {
    if given == [] then []
    else
      var g := given[|given| - 1];
      TextsOf(o, given[..|given| - 1], k) + (if !g.Operand? && g.option == k then [TextOf(o, g)] else [])
  }

  /** The first long name, or the short one if there is none. */
  function KeyOf(d: Details): string {
    if |d.long| > 0 then d.long[0] else d.short
  }

  ghost function Sequence(o: Table, given: seq<Given>): seq<KeyValue>
    requires o.Valid() && AllProper(o, given)
  {
    if given == [] then []
    else
      var g := given[|given| - 1];
      Sequence(o, given[..|given| - 1])
      + (if g.Operand? then [] else [KeyValue(KeyOf(o.details[g.option]), TextOf(o, g))])
  }

  function Operands(given: seq<Given>): seq<string> {
    if given == [] then []
    else
      var g := given[|given| - 1];
      Operands(given[..|given| - 1]) + (if g.Operand? then [g.arg] else [])
  }

  function Glue(pieces: seq<string>): string
    requires pieces != []
  {
    if |pieces| == 1 then pieces[0] else pieces[0] + "," + Glue(pieces[1..])
  }

  /** A text is its pieces with commas between them; one comma at its end does not count. */
  predicate PiecesOf(text: string, pieces: seq<string>) {
    && pieces != [] && (forall i :: 0 <= i < |pieces| ==> ',' !in pieces[i])
    && text == Glue(pieces) + (if text != "" && text[|text| - 1] == ',' then "," else "")
  }

  /** The pieces of all texts, one after another. */
  ghost predicate ListHolds(texts: seq<string>, l: seq<string>) {
    if texts == [] then l == []
    else
      exists n: nat {:trigger l[..n]} :: n <= |l| && ListHolds(texts[..|texts| - 1], l[..n]) && PiecesOf(texts[|texts| - 1], l[n..])
  }

  /** The text is one an option of this kind accepts. */
  ghost predicate Fitting(kind: Kind, text: string)
    requires kind.IntKind? ==> IntegerParser.Supported(kind.t)
  {
    match kind
    case BoolKind => text in {"t", "T", "true", "True", "1", "f", "F", "false", "False", "0"}
    case IntKind(t) => exists i :: IntegerParser.Accepts(t, text, i)
    case _ => true
  }

  /** What an option holds that was given these texts: the last of them, or of a list all. */
  ghost predicate Holds(kind: Kind, texts: seq<string>, v: Stored)
    requires texts != [] && (kind.IntKind? ==> IntegerParser.Supported(kind.t))
  {
    var last := texts[|texts| - 1];
    match kind
    case BoolKind => v == BoolVal(last in {"t", "T", "true", "True", "1"}) && Fitting(kind, last)
    case IntKind(t) => v.IntVal? && IntegerParser.Accepts(t, last, v.i)
    case StringKind => v == StringVal(last)
    case ListKind => v.ListVal? && ListHolds(texts, v.l)
  }

  ghost predicate HoldsFor(o: Table, k: nat, texts: seq<string>, v: OptionValue)
    requires o.Valid() && k < |o.details|
  {
    if texts == [] then v == OptionValue(None, 0, false)
    else v.value.Some? && v.count == |texts| && !v.isDefault && Holds(o.details[k].kind, texts, v.value.stored)
  }

  ghost predicate Tells(o: Table, given: seq<Given>, st: State)
    requires o.Valid() && AllProper(o, given)
  {
    && (forall k: nat :: k < |o.details| ==> HoldsFor(o, k, TextsOf(o, given, k), Lookup(st.parsed, k)))
    && st.sequential == Sequence(o, given) && st.unmatched == Operands(given) && st.defaults == []
  }

  // ----- values

  lemma PiecesMore(first: string, rest: string, pieces: seq<string>)
    requires ',' !in first && rest != "" && PiecesOf(rest, pieces)
    ensures PiecesOf(first + "," + rest, [first] + pieces)
  {
    var all, text := [first] + pieces, first + "," + rest;
    assert all[1..] == pieces;
    assert text[|text| - 1] == rest[|rest| - 1];
    assert first + "," + (Glue(pieces) + ",") == first + "," + Glue(pieces) + ",";
  }

  lemma {:induction false} PiecesOfSplit(text: string)
    requires text != ""
    ensures PiecesOf(text, SplitList(text))
    decreases |text|
  {
    hide PiecesOf, SplitList;
    var n := FindChar(text, ',');
    var first := text[..n];
    if n + 1 < |text| {
      SplitStep(text, n);
      PiecesOfSplit(text[n + 1..]);
      PiecesMore(first, text[n + 1..], SplitList(text[n + 1..]));
    } else {
      OnePiece(text, n);
    }
  }

  lemma CutAtComma(text: string, n: nat)
    requires n < |text| && text[n] == ','
    ensures text == text[..n] + "," + text[n + 1..]
  {}

  lemma NoComma(text: string, n: nat)
    requires n <= |text| && forall k :: 0 <= k < n ==> text[k] != ','
    ensures ',' !in text[..n]
  {}

  lemma SplitOnce(text: string, n: nat)
    requires text != "" && n == FindChar(text, ',')
    ensures SplitList(text) == [text[..n]] + (if n == |text| then [] else SplitList(text[n + 1..]))
  {
    hide FindChar;
  }

  lemma SplitStep(text: string, n: nat)
    requires n == FindChar(text, ',') && n + 1 < |text|
    ensures SplitList(text) == [text[..n]] + SplitList(text[n + 1..]) && ',' !in text[..n]
    ensures text == text[..n] + "," + text[n + 1..]
  {
    hide FindChar, SplitList;
    SplitOnce(text, n);
    NoComma(text, n);
    CutAtComma(text, n);
  }

  lemma OnePiece(text: string, n: nat)
    requires text != "" && n == FindChar(text, ',') && n + 1 >= |text|
    ensures SplitList(text) == [text[..n]] && PiecesOf(text, [text[..n]])
  {
    hide FindChar, SplitList;
    SplitOnce(text, n);
    NoComma(text, n);
    if n == |text| {
      assert text[..n] == text;
    } else {
      CutAtComma(text, n);
      assert text[n + 1..] == "";
      NothingToSplit();
    }
  }

  lemma NothingToSplit()
    ensures SplitList("") == []
  {}

  lemma BoolHolds(texts: seq<string>, stored: Stored, text: string)
    ensures Fitting(BoolKind, text) ==> ParseValue(BoolKind, stored, text).Ok? && Holds(BoolKind, texts + [text], ParseValue(BoolKind, stored, text).value)
    ensures !Fitting(BoolKind, text) ==> ParseValue(BoolKind, stored, text) == Failed(IncorrectArgumentType(text))
  {
    assert (texts + [text])[|texts|] == text;
  }

  lemma IntHolds(t: IntegerParser.IntType, texts: seq<string>, stored: Stored, text: string)
    requires IntegerParser.Supported(t)
    ensures Fitting(IntKind(t), text) ==> ParseValue(IntKind(t), stored, text).Ok? && Holds(IntKind(t), texts + [text], ParseValue(IntKind(t), stored, text).value)
    ensures !Fitting(IntKind(t), text) ==> ParseValue(IntKind(t), stored, text) == Failed(IncorrectArgumentType(text))
  {
    hide IntegerParser.Meaning, IntegerParser.Accepts;
    assert (texts + [text])[|texts|] == text;
    var r := IntegerParser.Meaning(t, text);
    forall i ensures r == IntegerParser.Parsed(i) <==> IntegerParser.Accepts(t, text, i) {
      IntegerParser.MeaningIsDenotation(t, text, i);
    }
  }

  /** One text more: it is accepted exactly if it fits, and the option then holds what it should. */
  lemma ValueHolds(kind: Kind, texts: seq<string>, stored: Stored, text: string)
    requires kind.IntKind? ==> IntegerParser.Supported(kind.t)
    requires if texts == [] then stored == Fresh(kind) else Holds(kind, texts, stored)
    ensures Fitting(kind, text) ==> ParseValue(kind, stored, text).Ok? && Holds(kind, texts + [text], ParseValue(kind, stored, text).value)
    ensures !Fitting(kind, text) ==> ParseValue(kind, stored, text) == Failed(IncorrectArgumentType(text))
  {
    match kind
    case BoolKind => BoolHolds(texts, stored, text);
    case IntKind(t) => IntHolds(t, texts, stored, text);
    case StringKind => assert (texts + [text])[|texts|] == text;
    case ListKind =>
      hide ListHolds, ParseValue;
      assert texts == [] ==> ListHolds(texts, []) by { NothingListed(); }
      ListGrows(texts, stored, text);
  }

  lemma NothingListed()
    ensures ListHolds([], [])
  {}

  lemma NoPieces()
    ensures PiecesOf("", [""])
  {}

  lemma ListGrows(texts: seq<string>, stored: Stored, text: string)
    requires stored.ListVal? && ListHolds(texts, stored.l)
    ensures ParseValue(ListKind, stored, text).Ok? && ParseValue(ListKind, stored, text).value.ListVal?
    ensures ListHolds(texts + [text], ParseValue(ListKind, stored, text).value.l)
  {
    hide SplitList, PiecesOf;
    var pieces := if text == "" then [""] else SplitList(text);
    if text == "" {
      NoPieces();
    } else {
      PiecesOfSplit(text);
    }
    var l, all := stored.l + pieces, texts + [text];
    assert all[..|all| - 1] == texts;
    assert l[..|stored.l|] == stored.l && l[|stored.l|..] == pieces;
  }

  // ----- one argument of the line

  lemma LongFormRead(arg: string, n: string, setValue: bool, v: string)
    requires LongForm(arg, n, setValue, v)
    ensures ParseArgument(arg) == Long(n, setValue, v)
  {
    if setValue {
      LongArgumentWithValue(n, v);
    } else {
      LongArgument(n);
    }
  }

  /** The recogniser tells the forms of the pattern, and nothing else. */
  lemma ArgumentForms(arg: string)
    ensures forall n, setValue, v :: ParseArgument(arg) == Long(n, setValue, v) <==> LongForm(arg, n, setValue, v)
    ensures forall s :: ParseArgument(arg) == Group(s) <==> GroupForm(arg, s)
    ensures ParseArgument(arg) == NoMatch <==> NoForm(arg)
  {
    hide ParseArgument, SingleLine, LongName;
    forall n, setValue, v ensures ParseArgument(arg) == Long(n, setValue, v) <==> LongForm(arg, n, setValue, v) {
      if LongForm(arg, n, setValue, v) {
        LongFormRead(arg, n, setValue, v);
      }
      if ParseArgument(arg) == Long(n, setValue, v) {
        LongIsForm(arg);
      }
    }
    forall s ensures ParseArgument(arg) == Group(s) <==> GroupForm(arg, s) {
      if GroupForm(arg, s) {
        GroupArgument(s);
      }
      if ParseArgument(arg) == Group(s) {
        GroupIsForm(arg);
      }
    }
    if !NoForm(arg) {
      assert ParseArgument(arg) != NoMatch;
    }
  }

  lemma LongIsForm(arg: string)
    requires ParseArgument(arg).Long?
    ensures var a := ParseArgument(arg); LongForm(arg, a.name, a.setValue, a.value)
  {
    var j := NameEnd(arg, 2);
    assert arg == arg[..2] + arg[2..j] + arg[j..];
    if j < |arg| {
      assert arg[j..] == "=" + arg[j + 1..];
    } else {
      assert arg[2..j] == arg[2..] && arg == "--" + arg[2..];
    }
  }

  lemma GroupIsForm(arg: string)
    requires ParseArgument(arg).Group?
    ensures GroupForm(arg, ParseArgument(arg).letters)
  {
    assert arg[1..][1..] == arg[2..] && arg == "-" + arg[1..];
  }

  /** What is passed over goes to the unmatched arguments. */
  lemma OperandStep(o: Table, st: State, arg: string, post: seq<string>)
    requires o.Valid() && PassedOver(o, arg)
    ensures Run(o, st, [arg] + post) == Run(o, st.(unmatched := st.unmatched + [arg]), post)
  {
    hide ParseArgument, NoForm, LongForm;
    ArgumentForms(arg);
    var args := [arg] + post;
    assert args[0] == arg && args[1..] == post;
    if |arg| < 2 || arg[0] != '-' {
      NoOption(arg);
    }
    assert arg != "--";
  }

  lemma NoOption(arg: string)
    requires |arg| < 2 || arg[0] != '-'
    ensures ParseArgument(arg) == NoMatch && arg != "--"
  {}

  lemma BareStep(o: Table, st: State, k: nat, n: string, post: seq<string>)
    requires o.Valid() && Proper(o, Bare(k, n))
    ensures Run(o, st, Words(Bare(k, n)) + post)
            == (var r := ParseOption(o, st, k, o.details[k].implicitValue);
                if r.Failed? then Failed(r.error) else Run(o, r.value, post))
  {
    hide ParseOption, ParseArgument;
    var args := Words(Bare(k, n)) + post;
    assert args[1..] == post;
    if |n| == 1 {
      GroupArgument(n);
      assert [n[0]] == n && ("-" + n)[1] == n[0];
    } else {
      LongArgument(n);
      assert ("--" + n)[2] == n[0];
    }
  }

  lemma GivenStep(o: Table, st: State, g: Given, post: seq<string>)
    requires o.Valid() && Proper(o, g) && !g.Operand?
    ensures g.option < |o.details|
    ensures Run(o, st, Words(g) + post)
            == (var r := ParseOption(o, st, g.option, TextOf(o, g)); if r.Failed? then Failed(r.error) else Run(o, r.value, post))
  {
    hide Run, ParseOption, Names, Spellable;
    match g
    case Valued(s, k, v) => SpellingMeaning(o, st, s, k, v, post);
    case Bare(k, n) => BareStep(o, st, k, n, post);
  }

  // ----- the line

  /** The texts of the line that do not fit their options, in order. */
  ghost function Unfit(o: Table, given: seq<Given>): seq<string>
    requires o.Valid() && AllProper(o, given)
  {
    if given == [] then []
    else
      var g := given[0];
      (if !g.Operand? && !Fitting(o.details[g.option].kind, TextOf(o, g)) then [TextOf(o, g)] else []) + Unfit(o, given[1..])
  }

  lemma OneMore(o: Table, done: seq<Given>, g: Given, k: nat)
    requires o.Valid() && AllProper(o, done) && Proper(o, g)
    ensures AllProper(o, done + [g])
    ensures TextsOf(o, done + [g], k)
            == TextsOf(o, done, k) + (if !g.Operand? && g.option == k then [TextOf(o, g)] else [])
    ensures Sequence(o, done + [g])
            == Sequence(o, done) + (if g.Operand? then [] else [KeyValue(KeyOf(o.details[g.option]), TextOf(o, g))])
    ensures Operands(done + [g]) == Operands(done) + (if g.Operand? then [g.arg] else [])
  {
    hide Proper;
    var all := done + [g];
    assert all[..|all| - 1] == done && all[|all| - 1] == g;
  }

  lemma OperandTells(o: Table, done: seq<Given>, st: State, arg: string)
    requires o.Valid() && AllProper(o, done) && Proper(o, Operand(arg)) && Tells(o, done, st)
    ensures AllProper(o, done + [Operand(arg)]) && Tells(o, done + [Operand(arg)], st.(unmatched := st.unmatched + [arg]))
  {
    hide Proper, HoldsFor, TextsOf, Sequence, Operands;
    var all := done + [Operand(arg)];
    OneMore(o, done, Operand(arg), 0);
    forall k: nat | k < |o.details| ensures TextsOf(o, all, k) == TextsOf(o, done, k) {
      OneMore(o, done, Operand(arg), k);
    }
  }

  lemma ValueTells(o: Table, done: seq<Given>, st: State, g: Given)
    requires o.Valid() && AllProper(o, done) && Proper(o, g) && Tells(o, done, st) && !g.Operand? && g.option < |o.details|
    ensures AllProper(o, done + [g])
    ensures var r := ParseOption(o, st, g.option, TextOf(o, g));
            if Fitting(o.details[g.option].kind, TextOf(o, g)) then r.Ok? && Tells(o, done + [g], r.value)
            else r == Failed(IncorrectArgumentType(TextOf(o, g)))
  {
    hide Proper, TextsOf, Sequence, Operands, Holds, Fitting, ParseValue, TextOf, Fresh;
    var all, k, text := done + [g], g.option, TextOf(o, g);
    var d, v := o.details[k], Lookup(st.parsed, k);
    assert HoldsFor(o, k, TextsOf(o, done, k), v);
    var stored := if v.value.None? then Fresh(d.kind) else v.value.stored;
    ValueHolds(d.kind, TextsOf(o, done, k), stored, text);
    OneMore(o, done, g, k);
    if Fitting(d.kind, text) {
      var st' := ParseOption(o, st, k, text).value;
      forall j: nat | j < |o.details| ensures HoldsFor(o, j, TextsOf(o, all, j), Lookup(st'.parsed, j)) {
        OneMore(o, done, g, j);
        if j == k {
          assert Lookup(st'.parsed, k) == v.(value := Some(ParseValue(d.kind, stored, text).value), count := v.count + 1);
          assert |TextsOf(o, all, k)| == v.count + 1;
        } else {
          assert TextsOf(o, all, j) == TextsOf(o, done, j) && Lookup(st'.parsed, j) == Lookup(st.parsed, j);
          assert HoldsFor(o, j, TextsOf(o, done, j), Lookup(st.parsed, j));
        }
      }
    }
  }

  /** The loop over a line tells what the line says, or fails at the first text that does not fit. */
  lemma {:induction false} RunTells(o: Table, done: seq<Given>, todo: seq<Given>, st: State, post: seq<string>) returns (r: State)
    requires o.Valid() && AllProper(o, done) && AllProper(o, todo) && Tells(o, done, st)
    ensures AllProper(o, done + todo)
    ensures if Unfit(o, todo) == [] then Tells(o, done + todo, r) && Run(o, st, Line(todo) + post) == Run(o, r, post)
            else Run(o, st, Line(todo) + post) == Failed(IncorrectArgumentType(Unfit(o, todo)[0]))
    decreases |todo|
  {
    hide Proper, Tells, Run, ParseOption, Words, TextOf, Fitting;
    r := st;
    if todo == [] {
      assert done + todo == done && Line(todo) + post == post;
    } else {
      var g, rest := todo[0], todo[1..];
      assert done + todo == (done + [g]) + rest;
      assert Line(todo) + post == Words(g) + (Line(rest) + post);
      if g.Operand? {
        OperandPassed(o, g.arg);
        OperandStep(o, st, g.arg, Line(rest) + post);
        OperandTells(o, done, st, g.arg);
        r := RunTells(o, done + [g], rest, st.(unmatched := st.unmatched + [g.arg]), post);
      } else {
        GivenStep(o, st, g, Line(rest) + post);
        ValueTells(o, done, st, g);
        var x := ParseOption(o, st, g.option, TextOf(o, g));
        if x.Ok? {
          r := RunTells(o, done + [g], rest, x.value, post);
        }
      }
    }
  }

  lemma OperandPassed(o: Table, arg: string)
    requires o.Valid() && Proper(o, Operand(arg))
    ensures PassedOver(o, arg) && Words(Operand(arg)) == [arg]
  {}

  // ----- defaults

  /** Name `i` of the visiting order is the first to lead to an option that has a default and was not
      given. */
  ghost predicate Defaulted(o: Table, given: seq<Given>, i: nat)
    requires o.Valid() && AllProper(o, given) && i < |o.order|
  {
    var k := o.names[o.order[i]];
    o.details[k].hasDefault && TextsOf(o, given, k) == [] && forall j :: 0 <= j < i ==> o.names[o.order[j]] != k
  }

  ghost function DefaultsOf(o: Table, given: seq<Given>, i: nat): seq<KeyValue>
    requires o.Valid() && AllProper(o, given) && i <= |o.order|
  {
    if i == 0 then []
    else
      var d := o.details[o.names[o.order[i - 1]]];
      DefaultsOf(o, given, i - 1) + (if Defaulted(o, given, i - 1) then [KeyValue(KeyOf(d), d.defaultValue)] else [])
  }

  /** The defaults that are used and do not fit their options, from name `i` on. */
  ghost function UnfitDefaults(o: Table, given: seq<Given>, i: nat): seq<string>
    requires o.Valid() && AllProper(o, given) && i <= |o.order|
    decreases |o.order| - i
  {
    if i == |o.order| then []
    else
      var d := o.details[o.names[o.order[i]]];
      (if Defaulted(o, given, i) && !Fitting(d.kind, d.defaultValue) then [d.defaultValue] else []) + UnfitDefaults(o, given, i + 1)
  }

  predicate Reached(o: Table, k: nat, i: nat)
    requires o.Valid() && i <= |o.order|
  {
    exists j :: 0 <= j < i && o.names[o.order[j]] == k
  }

  /** Option `k` once the first `i` names have been visited. */
  ghost predicate Settles(o: Table, given: seq<Given>, i: nat, k: nat, v: OptionValue)
    requires o.Valid() && AllProper(o, given) && i <= |o.order| && k < |o.details|
  {
    var d := o.details[k];
    if TextsOf(o, given, k) == [] && d.hasDefault && Reached(o, k, i)
    then v.value.Some? && v.count == 0 && v.isDefault && Holds(d.kind, [d.defaultValue], v.value.stored)
    else HoldsFor(o, k, TextsOf(o, given, k), v)
  }

  /** What was given, and the defaults of what was not. */
  ghost predicate Reports(o: Table, given: seq<Given>, i: nat, st: State)
    requires o.Valid() && AllProper(o, given) && i <= |o.order|
  {
    && (forall k: nat :: k < |o.details| ==> Settles(o, given, i, k, Lookup(st.parsed, k)))
    && st.sequential == Sequence(o, given) && st.defaults == DefaultsOf(o, given, i)
  }

  lemma DefaultHolds(kind: Kind, text: string)
    requires kind.IntKind? ==> IntegerParser.Supported(kind.t)
    ensures var r := ParseValue(kind, Fresh(kind), text);
            if Fitting(kind, text) then r.Ok? && Holds(kind, [text], r.value) else r == Failed(IncorrectArgumentType(text))
  {
    hide Holds, Fitting, ParseValue;
    ValueHolds(kind, [], Fresh(kind), text);
    assert [] + [text] == [text];
  }

  lemma ReachedMore(o: Table, i: nat)
    requires o.Valid() && i < |o.order|
    ensures forall k: nat :: Reached(o, k, i + 1) <==> Reached(o, k, i) || k == o.names[o.order[i]]
  {
    var last := o.names[o.order[i]];
    assert Reached(o, last, i + 1);
    forall k: nat | Reached(o, k, i) ensures Reached(o, k, i + 1) {
      var j :| 0 <= j < i && o.names[o.order[j]] == k;
      assert o.names[o.order[j]] == k;
    }
  }

  /** One name more. */
  lemma NameReports(o: Table, given: seq<Given>, st: State, i: nat, st': State)
    requires o.Valid() && AllProper(o, given) && i < |o.order| && Reports(o, given, i, st)
    requires var k := o.names[o.order[i]];
             var d := o.details[k];
             && st'.sequential == st.sequential
             && if Defaulted(o, given, i)
                then st'.defaults == st.defaults + [KeyValue(KeyOf(d), d.defaultValue)]
                     && k in st'.parsed && st'.parsed == st.parsed[k := st'.parsed[k]]
                     && Settles(o, given, i + 1, k, st'.parsed[k])
                else st'.defaults == st.defaults && st'.parsed == st.parsed[k := Lookup(st.parsed, k)]
    ensures Reports(o, given, i + 1, st')
  {
    hide TextsOf, Sequence, HoldsFor, Holds, Reached;
    var k := o.names[o.order[i]];
    ReachedMore(o, i);
    forall j: nat | j < |o.details| ensures Settles(o, given, i + 1, j, Lookup(st'.parsed, j)) {
      assert Settles(o, given, i, j, Lookup(st.parsed, j));
      if j == k && !Defaulted(o, given, i) && TextsOf(o, given, k) == [] && o.details[k].hasDefault {
        assert Reached(o, k, i) by { ReachedBefore(o, given, i); }
      }
    }
  }

  lemma ReachedBefore(o: Table, given: seq<Given>, i: nat)
    requires o.Valid() && AllProper(o, given) && i < |o.order| && !Defaulted(o, given, i)
    ensures var k := o.names[o.order[i]]; TextsOf(o, given, k) == [] && o.details[k].hasDefault ==> Reached(o, k, i)
  {
    hide TextsOf;
  }

  /** The code's test for a default is that of `Defaulted`. */
  lemma DefaultedIs(o: Table, given: seq<Given>, st: State, i: nat)
    requires o.Valid() && AllProper(o, given) && i < |o.order| && Reports(o, given, i, st)
    ensures var k := o.names[o.order[i]];
            var v := Lookup(st.parsed, k);
            && (Defaulted(o, given, i) <==> o.details[k].hasDefault && v.count == 0 && !v.isDefault)
            && (Defaulted(o, given, i) ==> v == OptionValue(None, 0, false))
  {
    hide TextsOf, Sequence, Holds;
    var k := o.names[o.order[i]];
    assert Settles(o, given, i, k, Lookup(st.parsed, k));
  }

  lemma {:induction false} DefaultsReport(o: Table, given: seq<Given>, st: State, i: nat)
    requires o.Valid() && AllProper(o, given) && i <= |o.order| && Reports(o, given, i, st)
    ensures var r := Defaults(o, st, i);
            if UnfitDefaults(o, given, i) == []
            then r.Ok? && Reports(o, given, |o.order|, r.value) && r.value.unmatched == st.unmatched
            else r == Failed(IncorrectArgumentType(UnfitDefaults(o, given, i)[0]))
    decreases |o.order| - i
  {
    hide Reports, Defaulted, Settles, HoldsFor, Holds, Fitting, ParseValue, Fresh, Reached;
    if i < |o.order| {
      var k := o.names[o.order[i]];
      var d, v := o.details[k], Lookup(st.parsed, k);
      DefaultedIs(o, given, st, i);
      if Defaulted(o, given, i) {
        var r := ParseValue(d.kind, Fresh(d.kind), d.defaultValue);
        DefaultHolds(d.kind, d.defaultValue);
        if r.Ok? {
          var v' := OptionValue(Some(r.value), 0, true);
          var st' := st.(parsed := st.parsed[k := v'], defaults := st.defaults + [KeyValue(KeyOf(d), d.defaultValue)]);
          DefaultSettles(o, given, i, v');
          NameReports(o, given, st, i, st');
          DefaultsReport(o, given, st', i + 1);
        }
      } else {
        var st' := st.(parsed := st.parsed[k := v]);
        assert st'.defaults == st.defaults;
        NameReports(o, given, st, i, st');
        DefaultsReport(o, given, st', i + 1);
      }
    }
  }

  lemma DefaultSettles(o: Table, given: seq<Given>, i: nat, v: OptionValue)
    requires o.Valid() && AllProper(o, given) && i < |o.order| && Defaulted(o, given, i)
    requires var d := o.details[o.names[o.order[i]]];
             v.value.Some? && v.count == 0 && v.isDefault && Holds(d.kind, [d.defaultValue], v.value.stored)
    ensures Settles(o, given, i + 1, o.names[o.order[i]], v)
  {
    hide TextsOf, Holds;
    ReachedMore(o, i);
  }

  // ----- the whole parse

  lemma StartTells(o: Table)
    requires o.Valid()
    ensures AllProper(o, []) && Tells(o, [], START)
  {}

  lemma ToldIsReported(o: Table, given: seq<Given>, st: State)
    requires o.Valid() && AllProper(o, given) && Tells(o, given, st)
    ensures Reports(o, given, 0, st) && st.unmatched == Operands(given)
  {
    hide TextsOf, Sequence, HoldsFor;
  }

  /** The result of parsing a line, with what follows a `--`: every option holds the texts given to it
      or its default, the sequence and the defaults are listed in order, the rest is unmatched. A line
      with a text that does not fit its option is refused because of the first one, and otherwise one
      that needs an unfit default is. */
  lemma ParseReports(o: Table, given: seq<Given>, dashes: bool, rest: seq<string>)
    requires o.Valid() && AllProper(o, given) && (!dashes ==> rest == [])
    ensures var r := Parse(o, Line(given) + (if dashes then ["--"] + rest else []));
            if Unfit(o, given) != [] then r == Failed(IncorrectArgumentType(Unfit(o, given)[0]))
            else if UnfitDefaults(o, given, 0) != [] then r == Failed(IncorrectArgumentType(UnfitDefaults(o, given, 0)[0]))
            else r.Ok? && Reports(o, given, |o.order|, r.value) && r.value.unmatched == Operands(given) + rest
  {
    hide Tells, Reports, Proper, Defaults, Unfit, UnfitDefaults;
    var post := if dashes then ["--"] + rest else [];
    StartTells(o);
    var st := RunTells(o, [], given, START, post);
    assert [] + given == given;
    if Unfit(o, given) == [] {
      assert dashes ==> post[1..] == rest;
      ToldIsReported(o, given, st);
      DefaultsReport(o, given, st, 0);
      var r := Defaults(o, st, 0);
      if r.Ok? {
        ReportsSame(o, given, r.value, r.value.(unmatched := r.value.unmatched + rest));
      }
    }
  }

  lemma ReportsSame(o: Table, given: seq<Given>, st: State, st': State)
    requires o.Valid() && AllProper(o, given) && Reports(o, given, |o.order|, st)
    requires st'.parsed == st.parsed && st'.sequential == st.sequential && st'.defaults == st.defaults
    ensures Reports(o, given, |o.order|, st')
  {
    hide TextsOf, Settles;
  }

  // ----- arguments that end it

  ghost predicate UnknownName(o: Table, arg: string, n: string) {
    n !in o.names && !o.allowUnrecognised && exists setValue, v :: LongForm(arg, n, setValue, v)
  }

  ghost predicate UnknownLetter(o: Table, arg: string, n: string) {
    n !in o.names && !o.allowUnrecognised && |n| == 1 && exists s :: GroupForm(arg, s) && s[..1] == n
  }

  ghost predicate ValueMissing(o: Table, arg: string, n: string)
    requires o.Valid()
  {
    && n in o.names && !o.details[o.names[n]].hasImplicit
    && (LongForm(arg, n, false, "") || (|n| == 1 && GroupForm(arg, n)))
  }

  ghost predicate Formless(o: Table, arg: string) {
    NoForm(arg) && |arg| >= 2 && arg[0] == '-' && arg != "--" && !o.allowUnrecognised
  }

  /** The error for an argument that is no operand: an unknown name or letter, a value that is missing
      because nothing follows, or no form of an option. */
  lemma ArgumentRefused(o: Table, st: State, arg: string, post: seq<string>)
    requires o.Valid()
    ensures forall n :: UnknownName(o, arg, n) || UnknownLetter(o, arg, n) ==> Run(o, st, [arg] + post) == Failed(NoSuchOption(n))
    ensures forall n :: ValueMissing(o, arg, n) ==> Run(o, st, [arg]) == Failed(MissingArgument(n))
    ensures Formless(o, arg) ==> Run(o, st, [arg] + post) == Failed(InvalidOptionSyntax(arg))
  {
    hide Run, UnknownName, UnknownLetter, ValueMissing, Formless;
    forall n | UnknownName(o, arg, n) || UnknownLetter(o, arg, n)
      ensures Run(o, st, [arg] + post) == Failed(NoSuchOption(n)) {
      if UnknownName(o, arg, n) { NameRefused(o, st, arg, n, post); } else { LetterRefused(o, st, arg, n, post); }
    }
    forall n | ValueMissing(o, arg, n) ensures Run(o, st, [arg]) == Failed(MissingArgument(n)) {
      MissingRefused(o, st, arg, n);
    }
    if Formless(o, arg) {
      FormRefused(o, st, arg, post);
    }
  }

  lemma NameRefused(o: Table, st: State, arg: string, n: string, post: seq<string>)
    requires o.Valid() && UnknownName(o, arg, n)
    ensures Run(o, st, [arg] + post) == Failed(NoSuchOption(n))
  {
    hide ParseArgument, ParseOption;
    var setValue, v :| LongForm(arg, n, setValue, v);
    LongFormRead(arg, n, setValue, v);
    var args := [arg] + post;
    assert args[0] == arg && |arg| > 2;
  }

  lemma LetterRefused(o: Table, st: State, arg: string, n: string, post: seq<string>)
    requires o.Valid() && UnknownLetter(o, arg, n)
    ensures Run(o, st, [arg] + post) == Failed(NoSuchOption(n))
  {
    hide ParseArgument, ParseOption;
    var s :| GroupForm(arg, s) && s[..1] == n;
    GroupArgument(s);
    var args := [arg] + post;
    assert args[0] == arg && arg[1] == s[0] && [s[0]] == n;
  }

  lemma MissingRefused(o: Table, st: State, arg: string, n: string)
    requires o.Valid() && ValueMissing(o, arg, n)
    ensures Run(o, st, [arg]) == Failed(MissingArgument(n))
  {
    hide ParseArgument, ParseOption;
    if LongForm(arg, n, false, "") {
      LongFormRead(arg, n, false, "");
      assert |arg| > 2;
    } else {
      GroupArgument(n);
      assert arg[1] == n[0] && [n[0]] == n;
    }
  }

  lemma FormRefused(o: Table, st: State, arg: string, post: seq<string>)
    requires o.Valid() && Formless(o, arg)
    ensures Run(o, st, [arg] + post) == Failed(InvalidOptionSyntax(arg))
  {
    hide ParseArgument, NoForm;
    ArgumentForms(arg);
    assert ([arg] + post)[0] == arg;
  }

  /** Such an argument behind a line whose texts all fit ends the whole parse with its error. */
  lemma ParseRefuses(o: Table, given: seq<Given>, arg: string, post: seq<string>)
    requires o.Valid() && AllProper(o, given) && Unfit(o, given) == []
    ensures var line := Line(given) + ([arg] + post);
            && (forall n :: UnknownName(o, arg, n) || UnknownLetter(o, arg, n) ==> Parse(o, line) == Failed(NoSuchOption(n)))
            && (forall n :: ValueMissing(o, arg, n) && post == [] ==> Parse(o, line) == Failed(MissingArgument(n)))
            && (Formless(o, arg) ==> Parse(o, line) == Failed(InvalidOptionSyntax(arg)))
  {
    hide Tells, Proper, Unfit, Run, UnknownName, UnknownLetter, ValueMissing, Formless;
    StartTells(o);
    var st := RunTells(o, [], given, START, [arg] + post);
    ArgumentRefused(o, st, arg, post);
    assert post == [] ==> [arg] + post == [arg];
  }

  /** The characters of names, by their codes: digits, letters, hyphen, underscore and full stop. */
  lemma NameCharacters(c: char)
    ensures var n := c as int;
            && (IsAlnum(c) <==> 48 <= n <= 57 || 65 <= n <= 90 || 97 <= n <= 122)
            && (IsNameChar(c) <==> IsAlnum(c) || n == 45 || n == 95 || n == 46)
  {}
}
