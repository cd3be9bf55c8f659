/** `OptionParser` as it runs: the fields collect the result while a cursor moves over the argument
    vector (`Include/cxxopts.hpp`). */
module OptionParser {
  import O = Options

  class OptionParser {
    const options: O.Table
    var parsed: map<nat, O.OptionValue>
    var sequential: seq<O.KeyValue>
    var defaults: seq<O.KeyValue>

    constructor (options: O.Table)
      ensures this.options == options && AsState([]) == O.START
    {
      this.options := options;
      parsed, sequential, defaults := map[], [], [];
    }

    /** The fields together with the local list of unmatched arguments. */
    function AsState(unmatched: seq<string>): O.State
      reads this
    {
      O.State(parsed, sequential, defaults, unmatched)
    }

    method ParseOption(k: nat, text: string) returns (r: O.Outcome<()>)
      requires options.Valid() && k < |options.details|
      modifies this
      ensures forall u :: match O.ParseOption(options, old(AsState(u)), k, text)
                          case Ok(st) => r == O.Ok(()) && AsState(u) == st
                          case Failed(e) => r == O.Failed(e)
    {
      var d := options.details[k];
      var v := O.Lookup(parsed, k);
      var stored := if v.value.None? then O.Fresh(d.kind) else v.value.stored;
      v := v.(count := v.count + 1);
      stored :- O.ParseValue(d.kind, stored, text);
      parsed := parsed[k := v.(value := O.Some(stored))];
      sequential := sequential + [O.KeyValue(d.EssentialName(), text)];
      r := O.Ok(());
    }

    /** `argc` is the length of `argv`; the cursor moves on when the next argument is taken. */
    method CheckedParseArg(argv: seq<string>, current: nat, k: nat, name: string) returns (r: O.Outcome<nat>)
      requires options.Valid() && k < |options.details| && current < |argv|
      modifies this
      ensures forall u :: match O.CheckedParseArg(options, old(AsState(u)), k, name, argv[current + 1..])
                          case Ok(p) => r == O.Ok(current + p.1) && AsState(u) == p.0
                          case Failed(e) => r == O.Failed(e)
    {
      var d := options.details[k];
      if current + 1 >= |argv| {
        if d.hasImplicit {
          var _ :- ParseOption(k, d.implicitValue);
        } else {
          return O.Failed(O.MissingArgument(name));
        }
      } else if d.hasImplicit {
        var _ :- ParseOption(k, d.implicitValue);
      } else {
        var _ :- ParseOption(k, argv[current + 1]);
        return O.Ok(current + 1);
      }
      r := O.Ok(current);
    }

    /** The loop over the letters of a group. */
    method ParseGroup(argv: seq<string>, current0: nat, s: string, unmatched0: seq<string>)
      returns (r: O.Outcome<(nat, seq<string>)>)
      requires options.Valid() && current0 < |argv|
      modifies this
      ensures match O.ParseGroup(options, old(AsState(unmatched0)), s, 0, argv[current0 + 1..])
              case Ok(p) => r.Ok? && r.value.0 == current0 + p.1 && AsState(r.value.1) == p.0
              case Failed(e) => r == O.Failed(e)
    {
      hide O.ParseOption, O.CheckedParseArg;
      var current, unmatched := current0, unmatched0;
      ghost var rest := argv[current0 + 1..];
      ghost var goal := O.ParseGroup(options, AsState(unmatched), s, 0, rest);
      var i := 0;
      while i != |s|
        invariant i <= |s| && current == current0
        invariant O.ParseGroup(options, AsState(unmatched), s, i, rest) == goal
        decreases |s| - i
      {
        var name := [s[i]];
        if name !in options.names {
          if options.allowUnrecognised {
            unmatched := unmatched + ["-" + [s[i]]];
            i := i + 1;
            continue;
          }
          return O.Failed(O.NoSuchOption(name));
        }
        var k := options.names[name];
        if i + 1 == |s| {
          var next :- CheckedParseArg(argv, current, k, name);
          return O.Ok((next, unmatched));
        } else if options.details[k].hasImplicit {
          var _ :- ParseOption(k, options.details[k].implicitValue);
        } else {
          var _ :- ParseOption(k, s[i + 1..]);
          break;
        }
        i := i + 1;
      }
      r := O.Ok((current, unmatched));
    }

    method ParseDefault(k: nat) returns (r: O.Outcome<()>)
      requires options.Valid() && k < |options.details|
      modifies this
      ensures parsed.Keys >= old(parsed).Keys && sequential == old(sequential)
      ensures var d := options.details[k];
              var v := O.Lookup(old(parsed), k);
              match O.ParseValue(d.kind, if v.value.None? then O.Fresh(d.kind) else v.value.stored, d.defaultValue)
              case Ok(stored) =>
                && r == O.Ok(()) && parsed == old(parsed)[k := v.(value := O.Some(stored), isDefault := true)]
                && defaults == old(defaults) + [O.KeyValue(d.EssentialName(), d.defaultValue)]
              case Failed(e) => r == O.Failed(e)
    {
      var d := options.details[k];
      var v := O.Lookup(parsed, k);
      var stored :- O.ParseValue(d.kind, if v.value.None? then O.Fresh(d.kind) else v.value.stored, d.defaultValue);
      parsed := parsed[k := v.(value := O.Some(stored), isDefault := true)];
      defaults := defaults + [O.KeyValue(d.EssentialName(), d.defaultValue)];
      r := O.Ok(());
    }

    /** One round of the token loop, on an argument other than `--`. */
    method ParseToken(argv: seq<string>, current0: nat, unmatched0: seq<string>)
      returns (r: O.Outcome<(nat, seq<string>)>)
      requires options.Valid() && current0 < |argv|
      modifies this
      ensures match O.Step(options, old(AsState(unmatched0)), argv[current0], argv[current0 + 1..])
              case Ok(p) => r.Ok? && r.value.0 == current0 + 1 + p.1 && AsState(r.value.1) == p.0
              case Failed(e) => r == O.Failed(e)
    {
      hide O.ParseOption, O.CheckedParseArg, O.ParseGroup, O.ParseArgument;
      var current, unmatched := current0, unmatched0;
      var arg := argv[current];
      match O.ParseArgument(arg) {
        case NoMatch =>
          if |arg| >= 2 && arg[0] == '-' && !options.allowUnrecognised {
            return O.Failed(O.InvalidOptionSyntax(arg));
          }
          unmatched := unmatched + [arg];
        case Group(letters) =>
          var p :- ParseGroup(argv, current, letters, unmatched);
          current, unmatched := p.0, p.1;
        case Long(name, setValue, value) =>
          if name !in options.names {
            if !options.allowUnrecognised {
              return O.Failed(O.NoSuchOption(name));
            }
            unmatched := unmatched + [arg];
          } else {
            var k := options.names[name];
            if setValue {
              var _ :- ParseOption(k, value);
            } else {
              current :- CheckedParseArg(argv, current, k, name);
            }
          }
      }
      r := O.Ok((current + 1, unmatched));
    }

    /** The token loop. The cursor never passes the end of the vector. */
    method ParseTokens(argv: seq<string>) returns (r: O.Outcome<(nat, seq<string>)>)
      requires options.Valid() && |argv| >= 1
      modifies this
      ensures match O.Run(options, old(AsState([])), argv[1..])
              case Ok(t) => r.Ok? && r.value.0 <= |argv| && AsState(r.value.1) == t.st && argv[r.value.0..] == t.rest
              case Failed(e) => r == O.Failed(e)
    {
      hide O.Step;
      var current: nat, unmatched: seq<string> := 1, [];
      ghost var goal := O.Run(options, AsState([]), argv[1..]);
      while current != |argv|
        invariant 1 <= current <= |argv|
        invariant O.Run(options, AsState(unmatched), argv[current..]) == goal
        decreases |argv| - current
      {
        var arg := argv[current];
        ghost var rest := argv[current..];
        assert rest[0] == arg && rest[1..] == argv[current + 1..];
        if arg == "--" {
          return O.Ok((current + 1, unmatched));
        }
        ghost var start := current;
        var p :- ParseToken(argv, current, unmatched);
        current, unmatched := p.0, p.1;
        assert rest[current - start..] == argv[current..];
      }
      r := O.Ok((current, unmatched));
    }

    method Parse(argv: seq<string>) returns (r: O.Outcome<O.State>)
      requires options.Valid() && |argv| >= 1 && AsState([]) == O.START
      modifies this
      ensures r == O.Parse(options, argv[1..])
    {
      hide O.Run, O.ParseValue;
      var p :- ParseTokens(argv);
      var current, unmatched := p.0, p.1;
      ghost var goal := O.Defaults(options, AsState(unmatched), 0);
      ghost var rest := argv[current..];
      for i := 0 to |options.order|
        invariant O.Defaults(options, AsState(unmatched), i) == goal
      {
        var k := options.names[options.order[i]];
        var v := O.Lookup(parsed, k);
        if options.details[k].hasDefault && v.count == 0 && !v.isDefault {
          var _ :- ParseDefault(k);
        } else {
          parsed := parsed[k := v];
        }
      }
      assert goal == O.Ok(AsState(unmatched));
      ghost var ended := AsState(unmatched);
      ghost var kept := unmatched;
      while current != |argv|
        invariant current <= |argv| && unmatched + argv[current..] == kept + rest
        decreases |argv| - current
      {
        assert argv[current..] == [argv[current]] + argv[current + 1..];
        unmatched := unmatched + [argv[current]];
        current := current + 1;
      }
      assert unmatched == kept + rest by { assert unmatched + [] == unmatched && argv[current..] == []; }
      assert AsState(unmatched) == ended.(unmatched := kept + rest);
      r := O.Ok(AsState(unmatched));
    }
  }
}
