/** The command line of the server program (`ServerBA/ServerBA.cpp`). */
module ServerOptions {
  import opened Options
  import opened OptionValues
  import Digits
  import IntegerParser

  const PORT := IntKind(IntegerParser.IntType(16, false))

  const LISTEN := 0
  const HOST := 1
  const USER := 2
  const PASS := 3
  const HELP := 4

  const DETAILS := [
    Details("l", ["listen"], PORT, true, "54321", false, ""),
    Details("h", ["host"], StringKind, true, "localhost", false, ""),
    Details("u", ["user"], StringKind, true, "", false, ""),
    Details("p", ["pass"], StringKind, true, "", false, ""),
    Details("", ["help"], BoolKind, true, "false", true, "true")]

  const NAMES := map[
    "l" := LISTEN, "listen" := LISTEN, "h" := HOST, "host" := HOST, "u" := USER, "user" := USER,
    "p" := PASS, "pass" := PASS, "help" := HELP]

  /** The options, their names visited in any order. */
  function Server(order: seq<string>): Table {
    Table(NAMES, DETAILS, order, false)
  }

  ghost predicate AllNames(order: seq<string>) {
    forall n :: n in order <==> n in NAMES
  }

  lemma DefaultPortText()
    ensures Digits.Decimal(54321) == "54321"
  {
    hide Digits.Decimal;
    Digits.DecimalIs(54321);
    Digits.DecimalIs(5432);
    Digits.DecimalIs(543);
    Digits.DecimalIs(54);
    Digits.DecimalIs(5);
  }

  lemma DefaultPort(i: int)
    ensures IntegerParser.Accepts(PORT.t, "54321", i) <==> i == 54321
  {
    hide IntegerParser.Meaning, IntegerParser.Accepts, Digits.Decimal;
    IntegerParser.Ranges();
    DefaultPortText();
    IntegerParser.DecimalMeaning(PORT.t, 54321);
    IntegerParser.MeaningIsDenotation(PORT.t, "54321", i);
  }

  lemma {:induction false} DefaultsFit(order: seq<string>, given: seq<Given>, i: nat)
    requires AllNames(order) && AllProper(Server(order), given) && i <= |order|
    ensures UnfitDefaults(Server(order), given, i) == []
    decreases |order| - i
  {
    hide Defaulted, IntegerParser.Accepts, TextsOf;
    if i < |order| {
      DefaultPort(54321);
      DefaultsFit(order, given, i + 1);
    }
  }

  /** What the program finds: the port and the host that were given last, or the defaults. */
  ghost predicate Settings(given: seq<Given>, order: seq<string>, st: State)
    requires AllNames(order) && AllProper(Server(order), given)
  {
    var ports, hosts := TextsOf(Server(order), given, LISTEN), TextsOf(Server(order), given, HOST);
    var port, host := Lookup(st.parsed, LISTEN).value, Lookup(st.parsed, HOST).value;
    && port.Some? && port.stored.IntVal? && host.Some?
    && (if ports == [] then port.stored.i == 54321
        else IntegerParser.Accepts(IntegerParser.IntType(16, false), ports[|ports| - 1], port.stored.i))
    && host.stored == StringVal(if hosts == [] then "localhost" else hosts[|hosts| - 1])
  }

  /** Every line of options whose texts fit is accepted, and has these settings. */
  lemma SettingsFound(order: seq<string>, given: seq<Given>)
    requires AllNames(order) && AllProper(Server(order), given) && Unfit(Server(order), given) == []
    ensures var r := Parse(Server(order), Line(given)); r.Ok? && Settings(given, order, r.value)
  {
    hide AllProper, Reports, TextsOf, Sequence, DefaultsOf, Unfit, UnfitDefaults, Parse, IntegerParser.Accepts;
    var o := Server(order);
    DefaultsFit(order, given, 0);
    ParseReports(o, given, false, []);
    assert Line(given) + [] == Line(given);
    var st := Parse(o, Line(given)).value;
    ReportsOf(order, given, st, LISTEN);
    ReportsOf(order, given, st, HOST);
    forall i ensures IntegerParser.Accepts(PORT.t, "54321", i) <==> i == 54321 {
      DefaultPort(i);
    }
  }

  lemma ReportsOf(order: seq<string>, given: seq<Given>, st: State, k: nat)
    requires AllNames(order) && AllProper(Server(order), given) && Reports(Server(order), given, |order|, st) && k < 2
    ensures var o := Server(order);
            var texts, v := TextsOf(o, given, k), Lookup(st.parsed, k);
            v.value.Some? && Holds(DETAILS[k].kind, if texts == [] then [DETAILS[k].defaultValue] else texts, v.value.stored)
  {
    hide TextsOf, Sequence, DefaultsOf, Holds;
    var o := Server(order);
    assert Settles(o, given, |order|, k, Lookup(st.parsed, k));
    var n := if k == LISTEN then "listen" else "host";
    assert n in order;
    var j :| 0 <= j < |order| && order[j] == n;
    assert o.names[o.order[j]] == k;
  }
}
