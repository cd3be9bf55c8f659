/** Command usage: how it is counted and printed (`Utilities/Analytics.cpp`) and how the database side
    takes the text apart again (`Utilities/SqlUtils.cpp`). */
module Usage {
  import opened CppArith
  import opened Digits
  import opened Texts

  // ----- counting

  /** `m_usage`: an `unsigned int` per command, absent ones reading as 0. */
  type Counts = map<string, nat>

  function Get(usage: Counts, c: string): nat {
    if c in usage then usage[c] else 0
  }

  /** The loop of `GatherUsage`. */
  function Gather(usage: Counts, commands: seq<string>): Counts
    decreases |commands|
  {
    if commands == [] then usage
    else Gather(usage[commands[0] := U32(Get(usage, commands[0]) + 1)], commands[1..])
  }

  /** `n` more commands cannot wrap a counter. */
  ghost predicate Room(usage: Counts, n: nat) {
    forall c :: Get(usage, c) + n < 0x1_0000_0000
  }

  lemma GatherOne(usage: Counts, c: string, n: nat)
    requires Room(usage, n) && n > 0
    ensures var usage' := usage[c := U32(Get(usage, c) + 1)];
            && (forall d :: Get(usage', d) == Get(usage, d) + (if d == c then 1 else 0))
            && Room(usage', n - 1)
  {
    assert Get(usage, c) + n < 0x1_0000_0000;
  }

  /** The counters of a map hold 32 bits. */
  ghost predicate Counters(usage: Counts) {
    forall c :: Get(usage, c) < 0x1_0000_0000
  }

  lemma CountOne(usage: Counts, c: string, d: string, n: nat)
    requires Counters(usage)
    ensures var usage' := usage[c := U32(Get(usage, c) + 1)];
            && Counters(usage')
            && (Get(usage', d) + n) % 0x1_0000_0000 == (Get(usage, d) + (if d == c then 1 else 0) + n) % 0x1_0000_0000
  {
    var a, m := Get(usage, c), 0x1_0000_0000;
    var usage' := usage[c := U32(a + 1)];
    if a + 1 == m {
      ModUnique(a + 1 + n, m, 1 + n / m, n % m);
    }
    forall e ensures Get(usage', e) < m {
      assert Get(usage', e) == if e == c then U32(a + 1) else Get(usage, e);
    }
  }

  /** Gathering adds how often each command occurs, the counters wrapping. */
  lemma {:induction false} GatherWraps(usage: Counts, commands: seq<string>, c: string)
    requires Counters(usage)
    ensures Get(Gather(usage, commands), c) == (Get(usage, c) + multiset(commands)[c]) % 0x1_0000_0000
    ensures Gather(usage, commands).Keys == usage.Keys + set d | d in commands
    decreases |commands|
  {
    hide Get, Counters;
    if commands == [] {
      assert Get(usage, c) < 0x1_0000_0000 by { CounterIs(usage, c); }
    } else {
      var usage' := usage[commands[0] := U32(Get(usage, commands[0]) + 1)];
      assert commands == [commands[0]] + commands[1..];
      CountOne(usage, commands[0], c, multiset(commands[1..])[c]);
      GatherWraps(usage', commands[1..], c);
    }
  }

  lemma CounterIs(usage: Counts, c: string)
    requires Counters(usage)
    ensures Get(usage, c) < 0x1_0000_0000
  {}

  /** Gathering adds how often each command occurs, as long as no counter wraps. */
  lemma {:induction false} GatherAddsCounts(usage: Counts, commands: seq<string>)
    requires Room(usage, |commands|)
    ensures forall c :: Get(Gather(usage, commands), c) == Get(usage, c) + multiset(commands)[c]
    ensures Gather(usage, commands).Keys == usage.Keys + set d | d in commands
    decreases |commands|
  {
    hide Get, Room;
    if commands != [] {
      var usage' := usage[commands[0] := U32(Get(usage, commands[0]) + 1)];
      assert commands == [commands[0]] + commands[1..];
      GatherOne(usage, commands[0], |commands|);
      GatherAddsCounts(usage', commands[1..]);
    }
  }

  // ----- printing

  /** What `ToString` prints for one command. */
  function Entry(c: string, n: nat): string {
    c + "," + Decimal(n)
  }

  /** `ToString`, visiting the hash map in `order`. */
  function Print(usage: Counts, order: seq<string>): string {
    if order == [] then "" else Entry(order[0], Get(usage, order[0])) + " " + Print(usage, order[1..])
  }

  /** An order in which a map can be visited: every key once. */
  ghost predicate Visits(order: seq<string>, usage: Counts) {
    && (forall i :: 0 <= i < |order| ==> order[i] in usage)
    && (forall i, j :: 0 <= i < j < |order| ==> order[i] != order[j])
    && (forall c :: c in usage ==> c in order)
  }

  // ----- taking apart

  predicate IsSpace(c: char) {
    c == ' ' || c == '\t' || c == '\n' || c == '\r' || c == 11 as char || c == 12 as char
  }

  function SkipSpace(s: string, i: nat): (j: nat)
    requires i <= |s|
    ensures i <= j <= |s| && (j < |s| ==> !IsSpace(s[j]))
    ensures forall k :: i <= k < j ==> IsSpace(s[k])
    decreases |s| - i
  {
    if i < |s| && IsSpace(s[i]) then SkipSpace(s, i + 1) else i
  }

  function WordEnd(s: string, i: nat): (j: nat)
    requires i <= |s|
    ensures i <= j <= |s| && (j < |s| ==> IsSpace(s[j]))
    ensures forall k :: i <= k < j ==> !IsSpace(s[k])
    decreases |s| - i
  {
    if i < |s| && !IsSpace(s[i]) then WordEnd(s, i + 1) else i
  }

  /** The words that `ss >> word` reads, from index `i` on. */
  function Words(s: string, i: nat): seq<string>
    requires i <= |s|
    decreases |s| - i
  {
    var j := SkipSpace(s, i);
    if j == |s| then [] else [s[j..WordEnd(s, j)]] + Words(s, WordEnd(s, j))
  }

  function DigitsEnd(s: string, i: nat): (j: nat)
    requires i <= |s|
    ensures i <= j <= |s| && (forall k :: i <= k < j ==> IsDigit(s[k]))
    decreases |s| - i
  {
    if i < |s| && IsDigit(s[i]) then DigitsEnd(s, i + 1) else i
  }

  /** `std::atoi` of a text without leading blanks: an optional sign and the digits that follow. */
  function Atoi(s: string): int {
    var i := if s != "" && (s[0] == '-' || s[0] == '+') then 1 else 0;
    var n := Value(s[i..DigitsEnd(s, i)], 0);
    if s != "" && s[0] == '-' then -(n as int) else n
  }

  datatype Row = Row(command: string, count: int)

  /** The row of a word, if the word makes one. Without a comma the whole word is both the command
      and, the position after `npos` being 0, the count. */
  function RowOf(word: string): seq<Row> {
    var found := FindChar(word, ',');
    var command := word[..found];
    var second := if found == |word| then word else word[found + 1..];
    var count := Atoi(second);
    if command == "" || second == "" || count == 0 then [] else [Row(command, count)]
  }

  function Rows(words: seq<string>): seq<Row> {
    if words == [] then [] else RowOf(words[0]) + Rows(words[1..])
  }

  // ----- the text of the bulk insert

  function DecimalInt(n: int): string {
    if n < 0 then "-" + Decimal(-n) else Decimal(n)
  }

  function RowText(instance: nat, row: Row): string {
    "(" + Decimal(instance) + ", '" + row.command + "', " + DecimalInt(row.count) + ")"
  }

  /** Each row followed by a comma and a blank, as the loop appends them. */
  function Appended(instance: nat, rows: seq<Row>): string {
    if rows == [] then "" else RowText(instance, rows[0]) + ", " + Appended(instance, rows[1..])
  }

  function Joined(instance: nat, rows: seq<Row>): string
    requires rows != []
  {
    if |rows| == 1 then RowText(instance, rows[0])
    else RowText(instance, rows[0]) + ", " + Joined(instance, rows[1..])
  }

  /** `TrimRight`: up to the last character that is not one of `chars`. */
  function TrimRight(s: string, chars: string): (r: string)
    ensures r <= s && (r != "" ==> r[|r| - 1] !in chars)
    ensures forall k :: |r| <= k < |s| ==> s[k] in chars
  {
    if s == "" then "" else if s[|s| - 1] in chars then TrimRight(s[..|s| - 1], chars) else s
  }

  function BulkHead(table: string): string {
    "INSERT INTO " + table + " (InstanceID, Command, Count) VALUES "
  }

  lemma {:induction false} AppendedIsJoined(instance: nat, rows: seq<Row>)
    requires rows != []
    ensures Appended(instance, rows) == Joined(instance, rows) + ", "
    decreases |rows|
  {
    if |rows| > 1 {
      AppendedIsJoined(instance, rows[1..]);
      assert Appended(instance, rows) == RowText(instance, rows[0]) + ", " + (Joined(instance, rows[1..]) + ", ");
    } else {
      assert Appended(instance, rows[1..]) == "";
      assert RowText(instance, rows[0]) + ", " + "" == RowText(instance, rows[0]) + ", ";
    }
  }

  lemma {:induction false} JoinedEnds(instance: nat, rows: seq<Row>)
    requires rows != []
    ensures Joined(instance, rows) != "" && Joined(instance, rows)[|Joined(instance, rows)| - 1] == ')'
    decreases |rows|
  {
    if |rows| > 1 {
      JoinedEnds(instance, rows[1..]);
    }
  }

  /** A text that does not end in a comma or a blank comes back when both are appended and trimmed. */
  lemma TrimsSeparator(t: string)
    requires t != "" && t[|t| - 1] != ',' && t[|t| - 1] != ' '
    ensures TrimRight(t + ", ", ", ") == t
  {
    assert (t + ", ")[..|t| + 1] == t + "," && (t + ",")[..|t|] == t;
    assert TrimRight(t, ", ") == t;
  }

  /** The trimmed text of a bulk insert is its head and the rows joined by commas. */
  lemma TrimmedBulkIsJoin(table: string, instance: nat, rows: seq<Row>)
    requires rows != []
    ensures TrimRight(BulkHead(table) + Appended(instance, rows), ", ") == BulkHead(table) + Joined(instance, rows)
  {
    hide BulkHead, Appended, Joined, TrimRight;
    AppendedIsJoined(instance, rows);
    JoinedEnds(instance, rows);
    var t := BulkHead(table) + Joined(instance, rows);
    assert BulkHead(table) + Appended(instance, rows) == t + ", ";
    TrimsSeparator(t);
  }

  /** A statement in plain text. */
  lemma StatementText()
    ensures forall table :: BulkHead(table) == "INSERT INTO " + (table + " (InstanceID, Command, Count) VALUES ")
    ensures Joined(7, [Row("LINE", 2), Row("ARC", -1)]) == "(7, 'LINE', 2), (7, 'ARC', -1)"
  {
    RowTexts();
    var a, b := Row("LINE", 2), Row("ARC", -1);
    hide RowText;
    assert [a, b][1..] == [b];
    assert Joined(7, [a, b]) == "(7, 'LINE', 2)" + ", " + "(7, 'ARC', -1)";
  }

  lemma RowTexts()
    ensures RowText(7, Row("LINE", 2)) == "(7, 'LINE', 2)" && RowText(7, Row("ARC", -1)) == "(7, 'ARC', -1)"
  {
    DecimalIs(7);
    DecimalIs(2);
    DecimalIs(1);
  }

  /** A printed counter in plain text. */
  lemma PrintedText()
    ensures Print(map["LINE" := 12], ["LINE"]) == "LINE,12 "
  {
    DecimalIs(12);
    DecimalIs(1);
    assert ["LINE"][1..] == [];
  }

  // ----- what is printed is counted again

  /** A command of one or more characters, none of them white space or comma. */
  predicate Clean(c: string) {
    c != "" && ',' !in c && forall k :: 0 <= k < |c| ==> !(9 <= c[k] as int <= 13) && c[k] as int != 32
  }

  /** White space by its codes. */
  lemma SpaceCodes()
    ensures forall c :: IsSpace(c) <==> 9 <= c as int <= 13 || c as int == 32
  {}

  lemma DigitsEndIs(s: string, i: nat)
    requires i <= |s| && forall k :: i <= k < |s| ==> IsDigit(s[k])
    ensures DigitsEnd(s, i) == |s|
    decreases |s| - i
  {}

  lemma AtoiOfDecimal(n: nat)
    ensures Atoi(Decimal(n)) == n
  {
    var s := Decimal(n);
    assert IsDigit(s[0]);
    DigitsEndIs(s, 0);
    assert s[0..|s|] == s;
    ValueOfDecimal(n);
  }

  /** An optional sign and digits, and whatever follows them; a text that does not begin so is 0. */
  lemma AtoiMeaning(n: nat, rest: string)
    requires rest == "" || !IsDigit(rest[0])
    ensures Atoi(Decimal(n) + rest) == n && Atoi("+" + Decimal(n) + rest) == n && Atoi("-" + Decimal(n) + rest) == -(n as int)
    ensures !(rest != "" && rest[0] in "+-") ==> Atoi(rest) == 0
  {
    hide Decimal, Value;
    ValueOfDecimal(n);
    var d := Decimal(n);
    var s, t := d + rest, "+" + d + rest;
    assert IsDigit(s[0]) && s[..|d|] == d;
    DigitsStop(s, 0, |d|);
    assert s[0..|d|] == d;
    forall sign | sign in ["+", "-"] ensures (sign + d + rest)[1..DigitsEnd(sign + d + rest, 1)] == d {
      DigitsStop(sign + d + rest, 1, |d| + 1);
    }
    assert t[0] == '+' && ("-" + d + rest)[0] == '-';
    assert "+" in ["+", "-"] && "-" in ["+", "-"];
    if !(rest != "" && rest[0] in "+-") {
      NoDigitsRead(rest);
    }
  }

  lemma NoDigitsRead(s: string)
    requires s == "" || (!IsDigit(s[0]) && s[0] !in "+-")
    ensures Atoi(s) == 0
  {
    assert s != "" ==> s[0] != '+' && s[0] != '-' by {
      assert "+-"[0] == '+' && "+-"[1] == '-';
    }
  }

  lemma {:induction false} DigitsStop(s: string, i: nat, j: nat)
    requires i <= j <= |s| && (forall k :: i <= k < j ==> IsDigit(s[k])) && (j < |s| ==> !IsDigit(s[j]))
    ensures DigitsEnd(s, i) == j
    decreases j - i
  {
    if i < j {
      DigitsStop(s, i + 1, j);
    }
  }

  /** A word makes a row of what stands before its first comma and the number behind it, or without a
      comma of itself twice; not of an empty command or the number 0. */
  lemma RowOfWord(word: string, c: string, n: int)
    ensures RowOf(word) == [Row(c, n)] <==>
              n != 0 && c != "" && ',' !in c
              && if ',' in word then c + "," < word && Atoi(word[|c| + 1..]) == n else word == c && Atoi(c) == n
    ensures |RowOf(word)| <= 1
  {
    hide Atoi;
    var found := FindChar(word, ',');
    assert ',' in word <==> found < |word|;
    if c + "," <= word {
      assert word[|c|] == ',' && word[..|c|] == c;
      assert forall k :: 0 <= k < |c| ==> word[k] == c[k];
    }
    assert ',' !in word[..found];
    assert found < |word| ==> word[..found] + "," == word[..found + 1];
    assert found == |word| ==> word[..found] == word;
  }

  lemma RowOfEntry(c: string, n: nat)
    requires Clean(c) && n > 0
    ensures RowOf(Entry(c, n)) == [Row(c, n)]
  {
    var word := Entry(c, n);
    assert word[|c|] == ',' && word[..|c|] == c && word[|c| + 1..] == Decimal(n);
    assert forall k :: 0 <= k < |c| ==> word[k] == c[k];
    assert FindChar(word, ',') == |c|;
    AtoiOfDecimal(n);
  }

  lemma EntryIsWord(c: string, n: nat)
    requires Clean(c)
    ensures Entry(c, n) != "" && forall k :: 0 <= k < |Entry(c, n)| ==> !IsSpace(Entry(c, n)[k])
  {}

  lemma WordEndIs(s: string, i: nat, j: nat)
    requires i <= j <= |s| && (forall k :: i <= k < j ==> !IsSpace(s[k])) && (j < |s| ==> IsSpace(s[j]))
    ensures WordEnd(s, i) == j
    decreases j - i
  {}

  lemma WordsOfEntry(s: string, i: nat, w: string)
    requires w != "" && (forall k :: 0 <= k < |w| ==> !IsSpace(w[k]))
    requires i + |w| < |s| && s[i..i + |w|] == w && s[i + |w|] == ' '
    ensures Words(s, i) == [w] + Words(s, i + |w| + 1)
  {
    hide IsSpace;
    assert IsSpace(' ') by { SpaceIsSpace(); }
    assert forall k {:trigger s[k]} :: i <= k < i + |w| ==> s[k] == s[i..i + |w|][k - i] == w[k - i];
    assert s[i] == w[0];
    assert SkipSpace(s, i) == i;
    WordEndIs(s, i, i + |w|);
    assert SkipSpace(s, i + |w|) == SkipSpace(s, i + |w| + 1);
  }

  lemma SpaceIsSpace()
    ensures IsSpace(' ')
  {}

  /** One row for each visited command. */
  function RowsOf(usage: Counts, order: seq<string>): seq<Row> {
    if order == [] then [] else [Row(order[0], Get(usage, order[0]))] + RowsOf(usage, order[1..])
  }

  lemma {:induction false} PrintedRowsFrom(usage: Counts, order: seq<string>, s: string, i: nat)
    requires i <= |s| && s[i..] == Print(usage, order)
    requires forall k :: 0 <= k < |order| ==> Clean(order[k]) && Get(usage, order[k]) > 0
    ensures Rows(Words(s, i)) == RowsOf(usage, order)
    decreases |order|
  {
    hide Entry, Words, RowOf, Clean, Get, Rows;
    if order == [] {
      assert i == |s|;
      NoWords(s);
    } else {
      var w := Entry(order[0], Get(usage, order[0]));
      var rest := Print(usage, order[1..]);
      EntryIsWord(order[0], Get(usage, order[0]));
      TextAt(s, i, w, rest);
      WordsOfEntry(s, i, w);
      RowOfEntry(order[0], Get(usage, order[0]));
      PrintedRowsFrom(usage, order[1..], s, i + |w| + 1);
      RowsOfFirst(w, Words(s, i + |w| + 1));
    }
  }

  lemma RowsOfFirst(w: string, words: seq<string>)
    ensures Rows([w] + words) == RowOf(w) + Rows(words)
  {
    assert ([w] + words)[0] == w && ([w] + words)[1..] == words;
  }

  lemma NoWords(s: string)
    ensures Words(s, |s|) == [] && Rows([]) == []
  {}

  lemma TextAt(s: string, i: nat, w: string, rest: string)
    requires i <= |s| && s[i..] == w + " " + rest
    ensures i + |w| < |s| && s[i..i + |w|] == w && s[i + |w|] == ' ' && s[i + |w| + 1..] == rest
  {
    var t := w + " " + rest;
    assert t[..|w|] == w && t[|w|] == ' ' && t[|w| + 1..] == rest;
    assert s[i..i + |w|] == s[i..][..|w|] && s[i + |w|] == s[i..][|w|] && s[i + |w| + 1..] == s[i..][|w| + 1..];
  }

  /** The counts that rows give a command together. */
  function Total(rows: seq<Row>, c: string): int {
    if rows == [] then 0 else (if rows[0].command == c then rows[0].count else 0) + Total(rows[1..], c)
  }

  lemma {:induction false} TotalOfRows(usage: Counts, order: seq<string>, c: string)
    requires forall i, j :: 0 <= i < j < |order| ==> order[i] != order[j]
    ensures Total(RowsOf(usage, order), c) == (if c in order then Get(usage, c) else 0)
    decreases |order|
  {
    if order != [] {
      var rows := RowsOf(usage, order);
      assert rows[1..] == RowsOf(usage, order[1..]);
      TotalOfRows(usage, order[1..], c);
      assert c in order <==> c == order[0] || c in order[1..];
    }
  }

  // ----- all modules, over any history

  datatype Module = Module(id: int, commands: seq<string>, usage: Counts)

  /** `Find`: the index of the module, or the number of modules. */
  function Find(data: seq<Module>, id: int): (n: nat)
    ensures n <= |data| && (n < |data| ==> data[n].id == id)
    ensures forall k :: 0 <= k < n ==> data[k].id != id
  {
    if data == [] || data[0].id == id then 0
    else
      var n := Find(data[1..], id);
      assert forall k :: 1 <= k < n + 1 ==> data[k] == data[1..][k - 1];
      n + 1
  }

  function AddTo(data: seq<Module>, id: int, commands: seq<string>): seq<Module> {
    var i := Find(data, id);
    var data' := if i == |data| then data + [Module(id, [], map[])] else data;
    data'[i := data'[i].(commands := data'[i].commands + commands)]
  }

  function GatherModule(m: Module): Module {
    Module(m.id, [], Gather(m.usage, m.commands))
  }

  function GatherEach(data: seq<Module>): (r: seq<Module>)
    ensures |r| == |data| && forall i :: 0 <= i < |data| ==> r[i] == GatherModule(data[i])
  {
    seq(|data|, i requires 0 <= i < |data| => GatherModule(data[i]))
  }

  datatype Call = AddCommands(id: int, commands: seq<string>) | GatherUsage

  function Exec(data: seq<Module>, call: Call): seq<Module> {
    match call
    case AddCommands(id, commands) => AddTo(data, id, commands)
    case GatherUsage => GatherEach(data)
  }

  /** The modules after a history of calls, the last call being the last element. */
  function History(calls: seq<Call>): seq<Module> {
    if calls == [] then [] else Exec(History(calls[..|calls| - 1]), calls[|calls| - 1])
  }

  /** How often a command was added to a module. */
  function Added(calls: seq<Call>, id: int, c: string): nat {
    if calls == [] then 0
    else
      var last := calls[|calls| - 1];
      Added(calls[..|calls| - 1], id, c)
      + (if last.AddCommands? && last.id == id then multiset(last.commands)[c] else 0)
  }

  /** How many commands were added in all. */
  function Size(calls: seq<Call>): nat {
    if calls == [] then 0
    else
      var last := calls[|calls| - 1];
      Size(calls[..|calls| - 1]) + (if last.AddCommands? then |last.commands| else 0)
  }

  /** All commands added to the module are clean. */
  ghost predicate CleanModule(calls: seq<Call>, id: int) {
    forall c :: Added(calls, id, c) > 0 ==> Clean(c)
  }

  /** One entry per module. */
  predicate Distinct(data: seq<Module>) {
    forall i, j :: 0 <= i < j < |data| ==> data[i].id != data[j].id
  }

  lemma {:induction false} OneEntryPerModule(calls: seq<Call>)
    ensures Distinct(History(calls))
  {
    if calls != [] {
      OneEntryPerModule(calls[..|calls| - 1]);
    }
  }

  /** What the calls so far mean for a module: every added command is either counted or waiting. */
  ghost predicate Tracks(m: Module, calls: seq<Call>) {
    && (forall c :: Get(m.usage, c) + multiset(m.commands)[c] == Added(calls, m.id, c))
    && (forall c :: Get(m.usage, c) + |m.commands| <= Size(calls))
    && (forall c :: c in m.usage ==> m.usage[c] > 0)
  }

  ghost predicate AllTracked(data: seq<Module>, calls: seq<Call>) {
    && (forall i :: 0 <= i < |data| ==> Tracks(data[i], calls))
    && (forall id, c :: Find(data, id) == |data| ==> Added(calls, id, c) == 0)
  }

  lemma AddedStep(calls: seq<Call>, call: Call, id: int, c: string)
    ensures Added(calls + [call], id, c)
            == Added(calls, id, c) + (if call.AddCommands? && call.id == id then multiset(call.commands)[c] else 0)
    ensures Size(calls + [call]) == Size(calls) + (if call.AddCommands? then |call.commands| else 0)
    ensures History(calls + [call]) == Exec(History(calls), call)
  {
    assert (calls + [call])[..|calls|] == calls;
  }

  lemma GatherKeepsTrack(m: Module, calls: seq<Call>)
    requires Tracks(m, calls) && Size(calls) < 0x1_0000_0000
    ensures Tracks(GatherModule(m), calls + [GatherUsage])
  {
    hide Get, Added, Size;
    var all := calls + [GatherUsage];
    assert Room(m.usage, |m.commands|);
    GatherAddsCounts(m.usage, m.commands);
    var usage := Gather(m.usage, m.commands);
    hide Gather;
    forall c ensures Get(usage, c) + multiset([])[c] == Added(all, m.id, c) && Get(usage, c) + 0 <= Size(all) {
      AddedStep(calls, GatherUsage, m.id, c);
      CountAtMost(m.commands, c);
    }
    forall c | c in usage ensures usage[c] > 0 {
      GatheredCounts(m, usage, c);
    }
  }

  lemma GatheredCounts(m: Module, usage: Counts, c: string)
    requires c in usage && usage.Keys == m.usage.Keys + set d | d in m.commands
    requires Get(usage, c) == Get(m.usage, c) + multiset(m.commands)[c]
    requires c in m.usage ==> m.usage[c] > 0
    ensures usage[c] > 0
  {
    if c !in m.usage {
      assert c in m.commands;
    }
  }

  lemma CountAtMost(commands: seq<string>, c: string)
    ensures multiset(commands)[c] <= |commands|
  {
    assert |multiset(commands)| == |commands|;
    assert multiset(commands) == multiset(commands)[c := 0] + multiset{}[c := multiset(commands)[c]];
  }

  lemma AddKeepsTrack(m: Module, calls: seq<Call>, id: int, commands: seq<string>)
    requires Tracks(m, calls)
    ensures Tracks(if m.id == id then m.(commands := m.commands + commands) else m, calls + [AddCommands(id, commands)])
  {
    hide Get;
    var call := AddCommands(id, commands);
    forall c ensures Added(calls + [call], m.id, c) == Added(calls, m.id, c) + (if m.id == id then multiset(commands)[c] else 0)
             ensures Size(calls + [call]) == Size(calls) + |commands| {
      AddedStep(calls, call, m.id, c);
    }
    assert multiset(m.commands + commands) == multiset(m.commands) + multiset(commands);
  }

  lemma NewModuleTracks(calls: seq<Call>, id: int)
    requires forall c :: Added(calls, id, c) == 0
    ensures Tracks(Module(id, [], map[]), calls)
  {}

  lemma EntriesStay(data: seq<Module>, id: int, commands: seq<string>, id': int)
    ensures var r := AddTo(data, id, commands);
            id' == id || Find(data, id') < |data| ==> Find(r, id') < |r|
  {
    var r := AddTo(data, id, commands);
    assert r[Find(data, id)].id == id;
    if Find(data, id') < |data| {
      assert r[Find(data, id')].id == id';
    }
  }

  lemma AddTracked(data: seq<Module>, calls: seq<Call>, id: int, commands: seq<string>)
    requires AllTracked(data, calls) && Distinct(data)
    ensures AllTracked(AddTo(data, id, commands), calls + [AddCommands(id, commands)])
  {
    hide Tracks;
    var i := Find(data, id);
    var wide := if i == |data| then data + [Module(id, [], map[])] else data;
    if i == |data| {
      NewModuleTracks(calls, id);
    }
    var r := AddTo(data, id, commands);
    forall k | 0 <= k < |r| ensures Tracks(r[k], calls + [AddCommands(id, commands)]) {
      AddKeepsTrack(wide[k], calls, id, commands);
    }
    forall id', c | Find(r, id') == |r| ensures Added(calls + [AddCommands(id, commands)], id', c) == 0 {
      AddedStep(calls, AddCommands(id, commands), id', c);
      EntriesStay(data, id, commands, id');
    }
  }

  lemma GatherTracked(data: seq<Module>, calls: seq<Call>)
    requires AllTracked(data, calls) && Size(calls) < 0x1_0000_0000
    ensures AllTracked(GatherEach(data), calls + [GatherUsage])
  {
    hide Tracks;
    var r := GatherEach(data);
    forall k | 0 <= k < |r| ensures Tracks(r[k], calls + [GatherUsage]) {
      GatherKeepsTrack(data[k], calls);
    }
    forall id, c | Find(r, id) == |r| ensures Added(calls + [GatherUsage], id, c) == 0 {
      AddedStep(calls, GatherUsage, id, c);
    }
  }

  lemma {:induction false} HistoryTracked(calls: seq<Call>)
    requires Size(calls) < 0x1_0000_0000
    ensures AllTracked(History(calls), calls)
  {
    hide AllTracked, Exec;
    if calls == [] {
      NothingTracked();
    } else {
      var front, last := calls[..|calls| - 1], calls[|calls| - 1];
      assert calls == front + [last];
      HistoryTracked(front);
      OneEntryPerModule(front);
      AddedStep(front, last, 0, "");
      ExecTracked(History(front), front, last);
    }
  }

  lemma NothingTracked()
    ensures AllTracked([], [])
  {}

  lemma ExecTracked(data: seq<Module>, calls: seq<Call>, call: Call)
    requires AllTracked(data, calls) && Distinct(data) && Size(calls) < 0x1_0000_0000
    ensures AllTracked(Exec(data, call), calls + [call])
  {
    hide AllTracked, Size;
    match call
    case AddCommands(id, commands) => AddTracked(data, calls, id, commands);
    case GatherUsage => GatherTracked(data, calls);
  }

  lemma RowIsClean(word: string)
    requires forall k :: 0 <= k < |word| ==> !IsSpace(word[k])
    ensures forall k :: 0 <= k < |RowOf(word)| ==> Clean(RowOf(word)[k].command)
  {
    hide IsSpace, Atoi;
    SpaceCodes();
  }

  /** Whatever the text, the rows taken from it have clean commands. */
  lemma {:induction false} RowsAreClean(s: string, i: nat)
    requires i <= |s|
    ensures forall k :: 0 <= k < |Rows(Words(s, i))| ==> Clean(Rows(Words(s, i))[k].command)
    decreases |s| - i
  {
    hide RowOf, IsSpace, Clean;
    var j := SkipSpace(s, i);
    if j < |s| {
      var end := WordEnd(s, j);
      RowIsClean(s[j..end]);
      RowsAreClean(s, end);
      RowsOfFirst(s[j..end], Words(s, end));
    }
  }

  lemma {:induction false} NoTotal(rows: seq<Row>, c: string)
    requires forall k :: 0 <= k < |rows| ==> rows[k].command != c
    ensures Total(rows, c) == 0
  {
    if rows != [] {
      NoTotal(rows[1..], c);
    }
  }

  /** What the printed usage of module `m` counts a command for, once it has been taken apart. */
  function Reparsed(m: Module, order: seq<string>, c: string): int {
    Total(Rows(Words(Print(m.usage, order), 0)), c)
  }

  lemma CleanIsConserved(m: Module, calls: seq<Call>, order: seq<string>, c: string)
    requires Tracks(m, calls) && m.commands == [] && Visits(order, m.usage) && CleanModule(calls, m.id)
    ensures Reparsed(m, order, c) == Added(calls, m.id, c)
  {
    hide Rows, Words, Print, Total, Size, Added, Clean;
    assert forall d :: Get(m.usage, d) + multiset(m.commands)[d] == Added(calls, m.id, d);
    forall k | 0 <= k < |order| ensures Clean(order[k]) && Get(m.usage, order[k]) > 0 {
      assert order[k] in m.usage;
    }
    PrintedRowsFrom(m.usage, order, Print(m.usage, order), 0);
    TotalOfRows(m.usage, order, c);
  }

  lemma ConservedIsClean(m: Module, calls: seq<Call>, order: seq<string>)
    requires forall c :: Reparsed(m, order, c) == Added(calls, m.id, c)
    ensures CleanModule(calls, m.id)
  {
    hide Rows, Words, Print, Total, Added, Clean;
    forall c | Added(calls, m.id, c) > 0 ensures Clean(c) {
      assert Reparsed(m, order, c) > 0;
      RowsAreClean(Print(m.usage, order), 0);
      if !Clean(c) {
        NoTotal(Rows(Words(Print(m.usage, order), 0)), c);
      }
    }
  }

  /** After any history that ends in a gathering, the rows taken from a module's printed usage give
      every command the number of times it was added to the module, exactly if these commands are
      clean; a module without an entry was given none. */
  lemma UsageConserved(calls: seq<Call>, id: int, order: seq<string>)
    requires Size(calls) < 0x8000_0000
    ensures var data := History(calls + [GatherUsage]);
            var i := Find(data, id);
            && (i == |data| ==> forall c :: Added(calls, id, c) == 0)
            && (i < |data| && Visits(order, data[i].usage) ==>
                  (CleanModule(calls, id) <==> forall c :: Reparsed(data[i], order, c) == Added(calls, id, c)))
  {
    hide Reparsed, Size, Exec, Tracks, Clean, Visits;
    var all := calls + [GatherUsage];
    var data := History(all);
    forall c ensures Added(all, id, c) == Added(calls, id, c) && Size(all) == Size(calls) {
      AddedStep(calls, GatherUsage, id, c);
    }
    assert Size(all) == Size(calls) by { AddedStep(calls, GatherUsage, id, ""); }
    HistoryTracked(all);
    var i := Find(data, id);
    hide Added;
    if i < |data| && Visits(order, data[i].usage) {
      GatheredHasNoneWaiting(calls, i);
      if CleanModule(calls, id) {
        forall c ensures Reparsed(data[i], order, c) == Added(calls, id, c) {
          CleanIsConserved(data[i], all, order, c);
        }
      }
      if forall c :: Reparsed(data[i], order, c) == Added(calls, id, c) {
        ConservedIsClean(data[i], calls, order);
      }
    }
  }

  /** After a gathering the entry of a module, if it has one, counts all that was added to it. */
  lemma GatheredTracked(calls: seq<Call>, id: int)
    requires Size(calls) < 0x8000_0000
    ensures var all := calls + [GatherUsage];
            var data := History(all);
            var i := Find(data, id);
            && (forall c :: Added(all, id, c) == Added(calls, id, c))
            && (if i == |data| then forall c :: Added(calls, id, c) == 0
                else Tracks(data[i], all) && data[i].commands == [])
  {
    hide Size, Exec, Tracks;
    var all := calls + [GatherUsage];
    forall c ensures Added(all, id, c) == Added(calls, id, c) && Size(all) == Size(calls) {
      AddedStep(calls, GatherUsage, id, c);
    }
    assert Size(all) == Size(calls) by { AddedStep(calls, GatherUsage, id, ""); }
    HistoryTracked(all);
    var i := Find(History(all), id);
    if i < |History(all)| {
      GatheredHasNoneWaiting(calls, i);
    }
  }

  lemma GatheredHasNoneWaiting(calls: seq<Call>, i: nat)
    requires i < |History(calls + [GatherUsage])|
    ensures History(calls + [GatherUsage])[i].commands == []
  {
    AddedStep(calls, GatherUsage, 0, "");
  }
}
