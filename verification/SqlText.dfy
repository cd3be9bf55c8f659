/** How the database server reads the statement that `InsertDatabase` writes out
    (`Utilities/SqlUtils.cpp`). A command stands unescaped between quotes there. Literals are read as
    section 9.1.1, "String Literals", of the MySQL 8.0 Reference Manual has it; apart from them the
    statement must be written just as the program writes it. */
module SqlText {
  import opened Digits
  import opened Texts
  import U = Usage

  /** A value and the text after it, or a text that is no such value. */
  datatype Read<+T> = Refused | Got(value: T, rest: string) {
    predicate IsFailure() {
      Refused?
    }

    function PropagateFailure<V>(): Read<V>
      requires Refused?
    {
      Refused
    }

    function Extract(): (T, string)
      requires Got?
    {
      (value, rest)
    }
  }

  // ----- reading

  /** What a backslash before the character stands for, `%` and `_` aside. */
  function Unescaped(c: char): char {
    if c == '0' then 0 as char
    else if c == 'b' then 8 as char
    else if c == 't' then 9 as char
    else if c == 'n' then 10 as char
    else if c == 'r' then 13 as char
    else if c == 'Z' then 26 as char
    else c
  }

  /** Before these a backslash stays. */
  predicate Wildcard(c: char) {
    c == '%' || c == '_'
  }

  function Prefixed(p: string, r: Read<string>): Read<string> {
    if r.Refused? then Refused else Got(p + r.value, r.rest)
  }

  /** How many characters make up the first one of a literal: two for a doubled quote and for a
      backslash with what it escapes. */
  function Step(s: string): (n: nat)
    requires s != ""
    ensures 1 <= n <= |s|
  {
    if |s| > 1 && (s[0] == '\\' || (s[0] == '\'' && s[1] == '\'')) then 2 else 1
  }

  /** What they stand for. */
  function Piece(s: string): string
    requires s != ""
  {
    if s[0] == '\'' then "'"
    else if s[0] == '\\' && |s| > 1 && !Wildcard(s[1]) then [Unescaped(s[1])]
    else s[..Step(s)]
  }

  /** The quote that ends a literal, or the backslash that nothing follows. */
  predicate Alone(s: string)
    requires s != ""
  {
    (s[0] == '\'' || s[0] == '\\') && Step(s) == 1
  }

  /** A literal, from behind its opening quote. */
  function ReadLiteral(s: string): (r: Read<string>)
    ensures r.Got? ==> |r.rest| < |s|
    decreases |s|
  {
    if s == "" then Refused
    else if Alone(s) then (if s[0] == '\'' then Got("", s[1..]) else Refused)
    else Prefixed(Piece(s), ReadLiteral(s[Step(s)..]))
  }

  function ReadInt(s: string): (r: Read<int>)
    ensures r.Got? ==> |r.rest| <= |s|
  {
    var t := if s != "" && s[0] == '-' then s[1..] else s;
    var n := U.DigitsEnd(t, 0);
    if n == 0 then Refused
    else Got(if s[0] == '-' then -(Value(t[..n], 0) as int) else Value(t[..n], 0), t[n..])
  }

  function ReadToken(s: string, token: string): (r: Read<()>)
    ensures r.Got? ==> |r.rest| == |s| - |token| && s == token + r.rest
  {
    if token <= s then Got((), s[|token|..]) else Refused
  }

  datatype Tuple = Tuple(instance: int, row: U.Row)

  function Longer(first: Tuple, r: Read<seq<Tuple>>): Read<seq<Tuple>> {
    if r.Refused? then Refused else Got([first] + r.value, r.rest)
  }

  function ReadTuples(s: string): Read<seq<Tuple>>
    decreases |s|, 1
  {
    var (_, s) :- ReadToken(s, "(");
    var (instance, s) :- ReadInt(s);
    var (_, s) :- ReadToken(s, ", '");
    ReadCommand(instance, s)
  }

  /** A tuple from behind the quote of its command, and those that follow. */
  function ReadCommand(instance: int, s: string): Read<seq<Tuple>>
    decreases |s|, 0
  {
    var (command, s) :- ReadLiteral(s);
    ReadCount(instance, command, s)
  }

  function ReadCount(instance: int, command: string, s: string): Read<seq<Tuple>>
    decreases |s|, 2
  {
    var (_, s) :- ReadToken(s, ", ");
    var (count, s) :- ReadInt(s);
    var (_, s) :- ReadToken(s, ")");
    if s == "" then Got([Tuple(instance, U.Row(command, count))], "")
    else
      var (_, s) :- ReadToken(s, ", ");
      Longer(Tuple(instance, U.Row(command, count)), ReadTuples(s))
  }

  /** What stands between the table and the tuples. */
  const HEAD := " (InstanceID, Command, Count) VALUES "

  datatype Statement = Statement(table: string, tuples: seq<Tuple>)

  function ReadStatement(s: string): Read<Statement> {
    var (_, s) :- ReadToken(s, "INSERT INTO ");
    var n := FindChar(s, ' ');
    var table := s[..n];
    var (_, s) :- ReadToken(s[n..], HEAD);
    var (tuples, s) :- ReadTuples(s);
    Got(Statement(table, tuples), s)
  }

  // ----- one command in its quotes

  /** Quotes and backslashes. */
  function Marks(s: string): nat {
    if s == "" then 0 else (if s[0] == '\'' || s[0] == '\\' then 1 else 0) + Marks(s[1..])
  }

  /** No quote, and a backslash only before a wildcard. */
  predicate Plain(c: string) {
    forall k :: 0 <= k < |c| ==> PlainAt(c, k)
  }

  predicate PlainAt(c: string, k: nat)
    requires k < |c|
  {
    c[k] != '\'' && (c[k] == '\\' ==> k + 1 < |c| && Wildcard(c[k + 1]))
  }

  /** What becomes of a literal over the characters of a command: it stops among them, goes through to
      the closing quote, or swallows that with the last of them. */
  datatype Scan = Stops | Through(value: string) | Swallows(value: string)

  function Put(p: string, r: Scan): Scan {
    match r
    case Stops => Stops
    case Through(v) => Through(p + v)
    case Swallows(v) => Swallows(p + v)
  }

  function ScanOf(c: string): Scan
    decreases |c|
  {
    if c == "" then Through("")
    else if Alone(c) then (if |c| == 1 then Swallows("'") else Stops)
    else Put(Piece(c), ScanOf(c[Step(c)..]))
  }

  lemma PrefixedTwice(p: string, q: string, r: Read<string>)
    ensures Prefixed(p, Prefixed(q, r)) == Prefixed(p + q, r)
  {
    if r.Got? {
      assert p + (q + r.value) == p + q + r.value;
    }
  }

  /** The reading of a command in its quotes, told by its scan. */
  ghost predicate Scanned(scan: Scan, c: string, s: string, rest: string) {
    match scan
    case Stops => ReadLiteral(s).Got? && ReadLiteral(s).rest != "" && ReadLiteral(s).rest[0] in c
    case Through(v) => ReadLiteral(s) == Got(v, rest)
    case Swallows(v) => ReadLiteral(s) == Prefixed(v, ReadLiteral(rest))
  }

  lemma ScannedPut(scan: Scan, c: string, s: string, rest: string, p: string, c': string, s': string)
    requires Scanned(scan, c, s, rest) && ReadLiteral(s') == Prefixed(p, ReadLiteral(s))
    requires forall x :: x in c ==> x in c'
    ensures Scanned(Put(p, scan), c', s', rest)
  {
    hide ReadLiteral;
    if scan.Swallows? {
      PrefixedTwice(p, scan.value, ReadLiteral(rest));
    }
  }

  lemma {:induction false} LiteralScan(c: string, rest: string)
    requires rest == "" || rest[0] != '\''
    ensures Scanned(ScanOf(c), c, c + ("'" + rest), rest)
    decreases |c|
  {
    var s := c + ("'" + rest);
    if c == "" {
      assert s == "'" + rest && s[1..] == rest;
    } else if Alone(c) {
      if |c| == 1 {
        assert s == [c[0], '\''] + rest && s[2..] == rest;
      } else {
        assert s[1..] == c[1..] + ("'" + rest) && s[1] == c[1];
      }
    } else {
      var n := Step(c);
      assert s[n..] == c[n..] + ("'" + rest) && s[..n] == c[..n];
      assert |c| > 1 ==> s[1] == c[1];
      assert Step(s) == n && Piece(s) == Piece(c) && !Alone(s);
      LiteralScan(c[n..], rest);
      hide Piece, Step, Alone;
      ScannedPut(ScanOf(c[n..]), c[n..], s[n..], rest, Piece(c), c, s);
    }
  }

  lemma {:induction false} MarksConcat(a: string, b: string)
    ensures Marks(a + b) == Marks(a) + Marks(b)
  {
    if a == "" {
      assert a + b == b;
    } else {
      assert (a + b)[1..] == a[1..] + b;
      MarksConcat(a[1..], b);
    }
  }

  lemma {:induction false} NoMarks(s: string)
    requires forall k :: 0 <= k < |s| ==> s[k] != '\'' && s[k] != '\\'
    ensures Marks(s) == 0
  {
    if s != "" {
      NoMarks(s[1..]);
    }
  }

  /** The first character of a literal has no more marks than its text, and as many only if it is that. */
  lemma PieceMarks(c: string)
    requires c != "" && !Alone(c)
    ensures Marks(Piece(c)) <= Marks(c[..Step(c)])
    ensures Marks(Piece(c)) == Marks(c[..Step(c)])
            ==> Piece(c) == c[..Step(c)] && c[0] != '\'' && (c[0] == '\\' ==> Wildcard(c[1]))
  {
    if Step(c) == 1 {
      assert c[..1] == [c[0]];
    } else {
      assert c[..2] == [c[0], c[1]] && c[..2][1..] == [c[1]] && [c[1]][1..] == "";
      assert Piece(c) != c[..2] ==> Piece(c)[1..] == "";
    }
  }

  lemma PlainFrom(c: string)
    requires c != "" && c[0] != '\'' && (c[0] == '\\' ==> |c| > 1 && Wildcard(c[1]))
    ensures Plain(c) <==> Plain(c[Step(c)..])
  {
    var n := Step(c);
    var d := c[n..];
    forall k | n <= k < |c| ensures PlainAt(c, k) == PlainAt(d, k - n) {
      assert c[k] == d[k - n] && (k + 1 < |c| ==> c[k + 1] == d[k + 1 - n]);
    }
    forall k | 0 <= k < |d| ensures PlainAt(d, k) == PlainAt(c, k + n) {}
    assert PlainAt(c, 0) && (n == 2 ==> PlainAt(c, 1));
  }

  /** A literal's value has no more marks than its text, and as many only if it is its text. */
  ghost predicate Fewer(v: string, c: string) {
    Marks(v) <= Marks(c) && (Marks(v) == Marks(c) ==> v == c && Plain(c))
  }

  lemma FewerPut(c: string, v: string)
    requires c != "" && !Alone(c) && Fewer(v, c[Step(c)..])
    ensures Fewer(Piece(c) + v, c)
  {
    hide Piece, Step, Marks, Plain;
    var n := Step(c);
    assert c == c[..n] + c[n..];
    MarksConcat(c[..n], c[n..]);
    MarksConcat(Piece(c), v);
    PieceMarks(c);
    if Marks(Piece(c) + v) == Marks(c) {
      AloneSlash(c);
      PlainFrom(c);
    }
  }

  lemma AloneSlash(c: string)
    requires c != "" && !Alone(c)
    ensures c[0] == '\\' ==> |c| > 1
  {}

  lemma {:induction false} ScanMarks(c: string)
    ensures match ScanOf(c)
            case Stops => true
            case Through(v) => Fewer(v, c)
            case Swallows(v) => Marks(v) <= Marks(c) && v != "" && v[|v| - 1] == '\''
    decreases |c|
  {
    if c != "" && Alone(c) {
      assert Marks("'") == 1 && Marks(c) >= 1 by { assert "'"[1..] == ""; }
    } else if c != "" {
      hide Piece, Step, Marks, Plain;
      var n := Step(c);
      assert c == c[..n] + c[n..];
      ScanMarks(c[n..]);
      var r := ScanOf(c[n..]);
      if r.Through? {
        FewerPut(c, r.value);
      } else if r.Swallows? {
        MarksConcat(c[..n], c[n..]);
        PieceMarks(c);
        MarksConcat(Piece(c), r.value);
      }
    }
  }

  lemma {:induction false} PlainScan(c: string)
    requires Plain(c)
    ensures ScanOf(c) == Through(c)
    decreases |c|
  {
    if c != "" {
      assert PlainAt(c, 0);
      PlainFrom(c);
      PlainScan(c[Step(c)..]);
      assert c == c[..Step(c)] + c[Step(c)..];
    }
  }

  // ----- the statement

  /** The text behind the closing quote of a command. */
  function After(instance: nat, count: int, rows: seq<U.Row>): string
    decreases |rows|, 2
  {
    ", " + (U.DecimalInt(count) + (")" + (if rows == [] then "" else ", " + Tuples(instance, rows))))
  }

  function Tuples(instance: nat, rows: seq<U.Row>): string
    requires rows != []
    decreases |rows|, 1
  {
    "(" + (Decimal(instance) + (", '" + Quoted(instance, rows)))
  }

  /** The text behind the opening quote of the first command. */
  function Quoted(instance: nat, rows: seq<U.Row>): string
    requires rows != []
    decreases |rows|, 0
  {
    rows[0].command + ("'" + After(instance, rows[0].count, rows[1..]))
  }

  lemma Regrouped(id: string, c: string, n: string, more: string)
    ensures "(" + (id + (", '" + (c + ("'" + (", " + (n + (")" + more)))))))
         == "(" + id + ", '" + c + "', " + n + ")" + more
  {
    var t := "'" + (", " + (n + (")" + more)));
    assert t == "', " + n + ")" + more;
    assert "(" + (id + (", '" + (c + t))) == "(" + id + ", '" + c + t;
  }

  lemma {:induction false} TuplesAreJoined(instance: nat, rows: seq<U.Row>)
    requires rows != []
    ensures U.Joined(instance, rows) == Tuples(instance, rows)
    decreases |rows|
  {
    hide Decimal, U.DecimalInt;
    var more := if |rows| > 1 then ", " + Tuples(instance, rows[1..]) else "";
    Regrouped(Decimal(instance), rows[0].command, U.DecimalInt(rows[0].count), more);
    if |rows| > 1 {
      TuplesAreJoined(instance, rows[1..]);
      assert U.RowText(instance, rows[0]) + ", " + Tuples(instance, rows[1..]) == U.RowText(instance, rows[0]) + more;
    } else {
      assert U.RowText(instance, rows[0]) + more == U.RowText(instance, rows[0]);
    }
    assert After(instance, rows[0].count, rows[1..]) == ", " + (U.DecimalInt(rows[0].count) + (")" + more));
  }

  lemma TokenReads(token: string, rest: string)
    ensures ReadToken(token + rest, token) == Got((), rest)
  {
    assert (token + rest)[..|token|] == token && (token + rest)[|token|..] == rest;
  }

  lemma {:induction false} DigitsEndAt(s: string, i: nat, n: nat)
    requires i <= n <= |s| && (forall k :: i <= k < n ==> IsDigit(s[k])) && (n < |s| ==> !IsDigit(s[n]))
    ensures U.DigitsEnd(s, i) == n
    decreases n - i
  {
    if i < n {
      DigitsEndAt(s, i + 1, n);
    }
  }

  lemma IntReads(n: int, rest: string)
    requires rest == "" || !IsDigit(rest[0])
    ensures ReadInt(U.DecimalInt(n) + rest) == Got(n, rest)
  {
    hide Decimal, Value;
    var d := Decimal(if n < 0 then -n else n);
    var s := U.DecimalInt(n) + rest;
    var t := d + rest;
    assert n < 0 ==> s[1..] == t;
    assert s[0] == if n < 0 then '-' else d[0];
    assert IsDigit(d[0]);
    assert t[..|d|] == d && t[|d|..] == rest;
    DigitsEndAt(t, 0, |d|);
    ValueOfDecimal(if n < 0 then -n else n);
  }

  lemma TuplesRead(instance: nat, rows: seq<U.Row>)
    requires rows != []
    ensures ReadTuples(Tuples(instance, rows)) == ReadCommand(instance, Quoted(instance, rows))
  {
    hide ReadToken, ReadInt, Decimal, ReadCommand, Quoted;
    var rest := ", '" + Quoted(instance, rows);
    TokenReads("(", Decimal(instance) + rest);
    assert U.DecimalInt(instance) == Decimal(instance);
    IntReads(instance, rest);
    TokenReads(", '", Quoted(instance, rows));
  }

  lemma CountReads(instance: nat, command: string, count: int, rows: seq<U.Row>)
    ensures var first := [Tuple(instance, U.Row(command, count))];
            ReadCount(instance, command, After(instance, count, rows))
            == if rows == [] then Got(first, "")
               else var r := ReadCommand(instance, Quoted(instance, rows));
                    if r.Refused? then Refused else Got(first + r.value, r.rest)
  {
    hide ReadToken, ReadInt, U.DecimalInt, ReadCommand, ReadTuples, Quoted, Tuples;
    var more := if rows == [] then "" else ", " + Tuples(instance, rows);
    TokenReads(", ", U.DecimalInt(count) + (")" + more));
    IntReads(count, ")" + more);
    TokenReads(")", more);
    if rows != [] {
      TokenReads(", ", Tuples(instance, rows));
      TuplesRead(instance, rows);
    }
  }

  lemma CountRefused(instance: int, command: string, s: string)
    requires s == "" || s[0] != ','
    ensures ReadCount(instance, command, s).Refused?
  {
    hide ReadInt, ReadTuples;
  }

  lemma {:induction false} UnmarkedPrefix(p: string, s: string)
    requires forall k :: 0 <= k < |p| ==> p[k] != '\'' && p[k] != '\\'
    ensures ReadLiteral(p + s) == Prefixed(p, ReadLiteral(s))
  {
    if p == "" {
      assert p + s == s;
      assert ReadLiteral(s).Got? ==> "" + ReadLiteral(s).value == ReadLiteral(s).value;
    } else {
      UnmarkedPrefix(p[1..], s);
      assert (p + s)[1..] == p[1..] + s && (p + s)[..1] == p[..1] && p[..1] + p[1..] == p;
      PrefixedTwice(p[..1], p[1..], ReadLiteral(s));
    }
  }

  // ----- what a statement is read as

  function TuplesOf(instance: int, rows: seq<U.Row>): (r: seq<Tuple>)
    ensures |r| == |rows| && forall k :: 0 <= k < |rows| ==> r[k] == Tuple(instance, rows[k])
  {
    seq(|rows|, k requires 0 <= k < |rows| => Tuple(instance, rows[k]))
  }

  function FirstPrefixed(p: string, r: Read<seq<Tuple>>): Read<seq<Tuple>> {
    if r.Refused? || r.value == [] then r
    else
      var first := r.value[0];
      Got([first.(row := first.row.(command := p + first.row.command))] + r.value[1..], r.rest)
  }

  lemma CommandPrefixed(instance: int, p: string, s: string, s': string)
    requires ReadLiteral(s) == Prefixed(p, ReadLiteral(s'))
    ensures ReadCommand(instance, s) == FirstPrefixed(p, ReadCommand(instance, s'))
  {
    hide ReadLiteral, ReadCount;
    var r := ReadLiteral(s');
    if r.Got? {
      CountPrefixed(instance, p, r.value, r.rest);
    }
  }

  lemma CountPrefixed(instance: int, p: string, command: string, s: string)
    ensures ReadCount(instance, p + command, s) == FirstPrefixed(p, ReadCount(instance, command, s))
  {
    hide ReadToken, ReadInt, ReadTuples, Longer, FirstPrefixed;
    forall n, r ensures FirstPrefixed(p, Longer(Tuple(instance, U.Row(command, n)), r))
                        == Longer(Tuple(instance, U.Row(p + command, n)), r) {
      LongerPrefixed(instance, p, command, n, r);
    }
    forall n ensures FirstPrefixed(p, Got([Tuple(instance, U.Row(command, n))], ""))
                     == Got([Tuple(instance, U.Row(p + command, n))], "") {
      OnePrefixed(instance, p, command, n);
    }
    NonePrefixed(p);
  }

  lemma LongerPrefixed(instance: int, p: string, command: string, n: int, r: Read<seq<Tuple>>)
    ensures FirstPrefixed(p, Longer(Tuple(instance, U.Row(command, n)), r)) == Longer(Tuple(instance, U.Row(p + command, n)), r)
  {
    if r.Got? {
      assert ([Tuple(instance, U.Row(command, n))] + r.value)[1..] == r.value;
    }
  }

  lemma OnePrefixed(instance: int, p: string, command: string, n: int)
    ensures FirstPrefixed(p, Got([Tuple(instance, U.Row(command, n))], "")) == Got([Tuple(instance, U.Row(p + command, n))], "")
  {
    var first := Tuple(instance, U.Row(p + command, n));
    assert [Tuple(instance, U.Row(command, n))][1..] == [] && [first] + [] == [first];
  }

  lemma NonePrefixed(p: string)
    ensures FirstPrefixed(p, Refused) == Refused
  {}

  /** The separator of two tuples, up to the opening quote of the second. */
  function Between(instance: nat, count: int): string {
    ", " + (U.DecimalInt(count) + (")" + (", " + ("(" + (Decimal(instance) + ", ")))))
  }

  lemma DigitsUnmarked(n: int)
    ensures forall k :: 0 <= k < |U.DecimalInt(n)| ==> U.DecimalInt(n)[k] != '\'' && U.DecimalInt(n)[k] != '\\'
  {}

  lemma BetweenUnmarked(instance: nat, count: int)
    ensures forall k :: 0 <= k < |Between(instance, count)| ==>
              Between(instance, count)[k] != '\'' && Between(instance, count)[k] != '\\'
  {
    hide Decimal, U.DecimalInt;
    assert U.DecimalInt(instance) == Decimal(instance) by { NonnegativeInt(instance); }
    DigitsUnmarked(count);
    DigitsUnmarked(instance);
  }

  lemma NonnegativeInt(n: nat)
    ensures U.DecimalInt(n) == Decimal(n)
  {}

  lemma AfterSplits(instance: nat, count: int, rows: seq<U.Row>)
    requires rows != []
    ensures After(instance, count, rows) == Between(instance, count) + ("'" + Quoted(instance, rows))
  {
    hide Decimal, U.DecimalInt, Quoted;
    var id, n, t := Decimal(instance), U.DecimalInt(count), Quoted(instance, rows);
    assert ", '" + t == ", " + ("'" + t);
    assert ", " + (n + (")" + (", " + ("(" + (id + (", " + ("'" + t)))))))
        == ", " + (n + (")" + (", " + ("(" + (id + ", "))))) + ("'" + t);
  }

  lemma SwallowedLast(instance: nat, count: int)
    ensures ReadLiteral(After(instance, count, [])).Refused?
  {
    hide ReadLiteral, U.DecimalInt;
    var q := After(instance, count, []);
    DigitsUnmarked(count);
    UnmarkedPrefix(q, "");
    assert q + "" == q;
    EmptyLiteral();
  }

  lemma EmptyLiteral()
    ensures ReadLiteral("").Refused?
  {}

  /** The quote that opens the next command, where a literal has swallowed the quote before. */
  lemma SwallowedNext(instance: nat, count: int, rows: seq<U.Row>)
    requires rows != [] && rows[0].command != ""
    ensures var c := rows[0].command;
            var rest := "'" + After(instance, rows[0].count, rows[1..]);
            ReadLiteral(After(instance, count, rows))
            == if c[0] == '\'' then Prefixed(Between(instance, count) + "'", ReadLiteral(c[1..] + rest))
               else Got(Between(instance, count), c + rest)
  {
    hide Between, After;
    var t := Quoted(instance, rows);
    AfterSplits(instance, count, rows);
    BetweenUnmarked(instance, count);
    UnmarkedPrefix(Between(instance, count), "'" + t);
    assert t[0] == rows[0].command[0] && ("'" + t)[1..] == t;
    if t[0] == '\'' {
      var rest := "'" + After(instance, rows[0].count, rows[1..]);
      assert ("'" + t)[2..] == t[1..] == rows[0].command[1..] + rest;
      PrefixedTwice(Between(instance, count), "'", ReadLiteral(rows[0].command[1..] + rest));
    } else {
      assert Alone("'" + t);
      assert Between(instance, count) + "" == Between(instance, count);
    }
  }

  /** Commands without commas and, but for the first, not empty. */
  predicate Words(raw: string, rows: seq<U.Row>) {
    && ',' !in raw
    && forall k :: 0 <= k < |rows| ==> rows[k].command != "" && ',' !in rows[k].command
  }

  /** The reading of one command and what follows, told by its scan. */
  ghost predicate Stepped(scan: Scan, instance: nat, count: int, rows: seq<U.Row>, r: Read<seq<Tuple>>)
    requires forall k :: 0 <= k < |rows| ==> rows[k].command != ""
  {
    match scan
    case Stops => r.Refused?
    case Through(v) =>
      r == (if rows == [] then Got([Tuple(instance, U.Row(v, count))], "")
            else Longer(Tuple(instance, U.Row(v, count)), ReadCommand(instance, Quoted(instance, rows))))
    case Swallows(v) =>
      if rows == [] || rows[0].command[0] != '\'' then r.Refused?
      else r == FirstPrefixed(v + (Between(instance, count) + "'"),
                              ReadCommand(instance, rows[0].command[1..] + ("'" + After(instance, rows[0].count, rows[1..]))))
  }

  lemma CommandStep(instance: nat, raw: string, count: int, rows: seq<U.Row>)
    requires Words(raw, rows)
    ensures Stepped(ScanOf(raw), instance, count, rows, ReadCommand(instance, raw + ("'" + After(instance, count, rows))))
  {
    hide ReadLiteral, ScanOf, After, Between, ReadCount, Quoted;
    var rest := After(instance, count, rows);
    var s := raw + ("'" + rest);
    assert rest[0] == ',' by { AfterComma(instance, count, rows); }
    LiteralScan(raw, rest);
    match ScanOf(raw)
    case Stops => CountRefused(instance, ReadLiteral(s).value, ReadLiteral(s).rest);
    case Through(v) => CountReads(instance, v, count, rows);
    case Swallows(v) =>
      if rows == [] {
        SwallowedLast(instance, count);
      } else {
        SwallowedNext(instance, count, rows);
        var c, more := rows[0].command, "'" + After(instance, rows[0].count, rows[1..]);
        if c[0] == '\'' {
          PrefixedTwice(v, Between(instance, count) + "'", ReadLiteral(c[1..] + more));
          CommandPrefixed(instance, v + (Between(instance, count) + "'"), s, c[1..] + more);
        } else {
          assert (c + more)[0] == c[0];
          CountRefused(instance, v + Between(instance, count), c + more);
        }
      }
  }

  lemma AfterComma(instance: nat, count: int, rows: seq<U.Row>)
    ensures After(instance, count, rows) != "" && After(instance, count, rows)[0] == ','
  {}

  function MarksOf(rows: seq<U.Row>): nat {
    if rows == [] then 0 else Marks(rows[0].command) + MarksOf(rows[1..])
  }

  function RowsOf(tuples: seq<Tuple>): (r: seq<U.Row>)
    ensures |r| == |tuples| && forall k :: 0 <= k < |tuples| ==> r[k] == tuples[k].row
  {
    seq(|tuples|, k requires 0 <= k < |tuples| => tuples[k].row)
  }

  /** A quote, a comma and a blank: what a literal holds that has run over the end of its command. */
  predicate Crosses(c: string) {
    exists k :: 0 <= k < |c| && CrossesAt(c, k)
  }

  predicate CrossesAt(c: string, k: nat)
    requires k < |c|
  {
    c[k] == '\'' && k + 2 < |c| && c[k + 1] == ',' && c[k + 2] == ' '
  }

  ghost predicate AllPlain(rows: seq<U.Row>) {
    forall k :: 0 <= k < |rows| ==> Plain(rows[k].command)
  }

  ghost predicate SomeCrosses(tuples: seq<Tuple>) {
    exists k :: 0 <= k < |tuples| && Crosses(tuples[k].row.command)
  }

  /** What a successful reading `r` of the commands of `rows` is like. Marks are lost unless it is the
      rows, or a literal has run over the end of its command. */
  ghost predicate Fair(instance: int, rows: seq<U.Row>, r: Read<seq<Tuple>>) {
    r.Got? ==>
      && r.rest == "" && r.value != [] && (forall k :: 0 <= k < |r.value| ==> r.value[k].instance == instance)
      && MarksOf(RowsOf(r.value)) <= MarksOf(rows)
      && (MarksOf(RowsOf(r.value)) == MarksOf(rows) ==>
            SomeCrosses(r.value) || (r.value == TuplesOf(instance, rows) && AllPlain(rows)))
  }

  lemma MarksOfFirst(first: U.Row, rows: seq<U.Row>)
    ensures MarksOf([first] + rows) == Marks(first.command) + MarksOf(rows)
  {
    assert ([first] + rows)[1..] == rows;
  }

  lemma FairLast(instance: int, raw: string, v: string, count: int)
    requires Fewer(v, raw)
    ensures Fair(instance, [U.Row(raw, count)], Got([Tuple(instance, U.Row(v, count))], ""))
  {
    hide Marks, Plain, Crosses;
    MarksOfFirst(U.Row(raw, count), []);
    MarksOfFirst(U.Row(v, count), []);
    assert RowsOf([Tuple(instance, U.Row(v, count))]) == [U.Row(v, count)] + [];
    assert [U.Row(raw, count)] == [U.Row(raw, count)] + [];
  }

  lemma OneMoreTuple(first: Tuple, tuples: seq<Tuple>)
    ensures MarksOf(RowsOf([first] + tuples)) == Marks(first.row.command) + MarksOf(RowsOf(tuples))
    ensures SomeCrosses(tuples) ==> SomeCrosses([first] + tuples)
  {
    hide Marks, Crosses, MarksOf;
    assert RowsOf([first] + tuples) == [first.row] + RowsOf(tuples);
    MarksOfFirst(first.row, RowsOf(tuples));
    if SomeCrosses(tuples) {
      var k :| 0 <= k < |tuples| && Crosses(tuples[k].row.command);
      assert ([first] + tuples)[k + 1] == tuples[k];
    }
  }

  lemma OneMorePlain(instance: int, first: U.Row, rows: seq<U.Row>)
    requires Plain(first.command) && AllPlain(rows)
    ensures AllPlain([first] + rows)
    ensures TuplesOf(instance, [first] + rows) == [Tuple(instance, first)] + TuplesOf(instance, rows)
  {
    hide Plain;
  }

  lemma FairLonger(instance: int, raw: string, v: string, count: int, rows: seq<U.Row>, r: Read<seq<Tuple>>)
    requires Fewer(v, raw) && Fair(instance, rows, r)
    ensures Fair(instance, [U.Row(raw, count)] + rows, Longer(Tuple(instance, U.Row(v, count)), r))
  {
    hide Marks, Plain, SomeCrosses, MarksOf, RowsOf, TuplesOf, AllPlain;
    if r.Got? {
      MarksOfFirst(U.Row(raw, count), rows);
      OneMoreTuple(Tuple(instance, U.Row(v, count)), r.value);
      if Plain(raw) && AllPlain(rows) {
        OneMorePlain(instance, U.Row(raw, count), rows);
      }
    }
  }

  lemma FirstCrosses(first: Tuple, tuples: seq<Tuple>)
    requires Crosses(first.row.command)
    ensures SomeCrosses([first] + tuples)
  {
    hide Crosses;
    assert ([first] + tuples)[0] == first;
  }

  /** A literal whose quote is followed by `q` and the rest of a command. */
  lemma RunsOver(v: string, q: string, rest: string)
    requires v != "" && v[|v| - 1] == '\'' && Marks(q) == 1 && ", " <= q
    ensures Marks(v + q + rest) == Marks(v) + 1 + Marks(rest) && Crosses(v + q + rest)
  {
    hide Marks;
    MarksConcat(v + q, rest);
    MarksConcat(v, q);
    assert CrossesAt(v + q + rest, |v| - 1);
  }

  /** `raw` has swallowed the quote before `q`, and the next command began with a quote. */
  lemma FairCrossing(instance: int, raw: string, v: string, q: string, count: int, rows: seq<U.Row>, r: Read<seq<Tuple>>)
    requires rows != [] && rows[0].command != "" && rows[0].command[0] == '\''
    requires Marks(v) <= Marks(raw) && v != "" && v[|v| - 1] == '\'' && Marks(q) == 1 && ", " <= q
    requires Fair(instance, [U.Row(rows[0].command[1..], rows[0].count)] + rows[1..], r)
    ensures Fair(instance, [U.Row(raw, count)] + rows, FirstPrefixed(v + q, r))
  {
    hide Marks, MarksOf, AllPlain, RowsOf, TuplesOf, Crosses, SomeCrosses;
    if r.Got? {
      var c, first, more := rows[0].command, r.value[0], r.value[1..];
      var longer := first.(row := first.row.(command := v + q + first.row.command));
      MarksOfFirst(U.Row(raw, count), rows);
      MarksOfFirst(U.Row(c[1..], rows[0].count), rows[1..]);
      MarksOfFirst(rows[0], rows[1..]);
      assert rows == [rows[0]] + rows[1..] && r.value == [first] + more;
      QuoteMarks(c);
      RunsOver(v, q, first.row.command);
      OneMoreTuple(first, more);
      OneMoreTuple(longer, more);
      FirstCrosses(longer, more);
    }
  }

  lemma QuoteMarks(c: string)
    requires c != "" && c[0] == '\''
    ensures Marks(c) == 1 + Marks(c[1..])
  {}

  lemma {:induction false} CommandsFair(instance: nat, raw: string, count: int, rows: seq<U.Row>)
    requires Words(raw, rows)
    ensures Fair(instance, [U.Row(raw, count)] + rows, ReadCommand(instance, raw + ("'" + After(instance, count, rows))))
    decreases |rows|
  {
    hide Fair, ReadCommand, Marks, ScanOf, After, Plain;
    CommandStep(instance, raw, count, rows);
    ScanMarks(raw);
    match ScanOf(raw)
    case Stops => RefusedFair(instance, [U.Row(raw, count)] + rows);
    case Through(v) =>
      if rows == [] {
        FairLast(instance, raw, v, count);
        assert [U.Row(raw, count)] + [] == [U.Row(raw, count)];
      } else {
        CommandsFair(instance, rows[0].command, rows[0].count, rows[1..]);
        assert rows == [U.Row(rows[0].command, rows[0].count)] + rows[1..];
        FairLonger(instance, raw, v, count, rows, ReadCommand(instance, Quoted(instance, rows)));
      }
    case Swallows(v) =>
      RefusedFair(instance, [U.Row(raw, count)] + rows);
      if rows != [] && rows[0].command[0] == '\'' {
        var c, q := rows[0].command, Between(instance, count) + "'";
        CommandsFair(instance, c[1..], rows[0].count, rows[1..]);
        BetweenMarks(instance, count);
        FairCrossing(instance, raw, v, q, count, rows,
                     ReadCommand(instance, c[1..] + ("'" + After(instance, rows[0].count, rows[1..]))));
      }
  }

  lemma RefusedFair(instance: int, rows: seq<U.Row>)
    ensures Fair(instance, rows, Refused)
  {}

  lemma BetweenMarks(instance: nat, count: int)
    ensures Marks(Between(instance, count) + "'") == 1 && ", " <= Between(instance, count) + "'"
  {
    BetweenUnmarked(instance, count);
    MarksConcat(Between(instance, count), "'");
    NoMarks(Between(instance, count));
    assert "'"[1..] == "";
  }

  /** Plain commands are read as they are written. */
  lemma {:induction false} PlainRead(instance: nat, raw: string, count: int, rows: seq<U.Row>)
    requires Words(raw, rows) && Plain(raw) && AllPlain(rows)
    ensures ReadCommand(instance, raw + ("'" + After(instance, count, rows)))
            == Got(TuplesOf(instance, [U.Row(raw, count)] + rows), "")
    decreases |rows|
  {
    hide ReadCommand, ScanOf, After, Plain;
    CommandStep(instance, raw, count, rows);
    PlainScan(raw);
    var all := [U.Row(raw, count)] + rows;
    if rows == [] {
      assert TuplesOf(instance, all) == [Tuple(instance, U.Row(raw, count))];
    } else {
      assert Plain(rows[0].command);
      PlainRead(instance, rows[0].command, rows[0].count, rows[1..]);
      assert rows == [U.Row(rows[0].command, rows[0].count)] + rows[1..];
      assert TuplesOf(instance, all) == [Tuple(instance, U.Row(raw, count))] + TuplesOf(instance, rows);
    }
  }

  // ----- the whole statement

  lemma TableSplits(table: string, body: string)
    requires ' ' !in table
    ensures var s := table + (HEAD + body);
            && U.BulkHead(table) + body == "INSERT INTO " + s
            && FindChar(s, ' ') == |table| && s[..|table|] == table && s[|table|..] == HEAD + body
  {
    hide FindChar;
    var s := table + (HEAD + body);
    assert (HEAD + body)[0] == ' ' && s[|table|] == ' ';
  }

  lemma StatementIs(table: string, instance: nat, rows: seq<U.Row>)
    requires rows != [] && ' ' !in table
    ensures ReadStatement(U.BulkHead(table) + U.Joined(instance, rows))
            == var r := ReadCommand(instance, Quoted(instance, rows));
               if r.Refused? then Refused else Got(Statement(table, r.value), r.rest)
  {
    hide ReadToken, ReadTuples, FindChar, Tuples, ReadCommand, Quoted, U.Joined, U.BulkHead;
    TuplesAreJoined(instance, rows);
    var body := Tuples(instance, rows);
    TableSplits(table, body);
    TokenReads("INSERT INTO ", table + (HEAD + body));
    TokenReads(HEAD, body);
    TuplesRead(instance, rows);
  }

  /** The statement a section writes is read as its rows exactly if their commands are plain. Whatever it
      is read as, the table and the instance are those written. */
  lemma StatementRead(table: string, instance: nat, rows: seq<U.Row>)
    requires rows != [] && ' ' !in table && Words("", rows)
    ensures var r := ReadStatement(U.BulkHead(table) + U.Joined(instance, rows));
            && (r == Got(Statement(table, TuplesOf(instance, rows)), "") <==> AllPlain(rows))
            && (r.Got? ==> r.value.table == table
                           && Fair(instance, rows, Got(r.value.tuples, r.rest)))
  {
    hide ReadCommand, Plain, U.BulkHead, U.Joined, ReadStatement, After, Crosses, Marks;
    StatementIs(table, instance, rows);
    var c := rows[0];
    assert rows == [c] + rows[1..] && c == U.Row(c.command, c.count);
    CommandsFair(instance, c.command, c.count, rows[1..]);
    if AllPlain(rows) {
      assert Plain(c.command);
      assert AllPlain(rows[1..]);
      PlainRead(instance, c.command, c.count, rows[1..]);
    }
    if ReadStatement(U.BulkHead(table) + U.Joined(instance, rows)) == Got(Statement(table, TuplesOf(instance, rows)), "") {
      assert RowsOf(TuplesOf(instance, rows)) == rows;
      CommaFree(instance, rows);
    }
  }

  lemma CommaFree(instance: int, rows: seq<U.Row>)
    requires Words("", rows)
    ensures !SomeCrosses(TuplesOf(instance, rows))
  {
    forall k | 0 <= k < |rows| ensures !Crosses(rows[k].command) {
      var c := rows[k].command;
      assert forall i :: 0 <= i < |c| ==> c[i] != ',';
    }
  }

  /** The rows the server reads off the statement for some rows; none if it cannot, or if there are
      none and no statement is sent. */
  function Written(table: string, instance: nat, rows: seq<U.Row>): seq<U.Row> {
    if rows == [] then []
    else
      var r := ReadStatement(U.BulkHead(table) + U.Joined(instance, rows));
      if r.Refused? || r.rest != "" then [] else RowsOf(r.value.tuples)
  }

  /** What is read off the statement is in the table and of the instance that it names. */
  lemma WrittenStatement(table: string, instance: nat, rows: seq<U.Row>)
    requires rows != [] && ' ' !in table && Words("", rows)
    ensures var r := ReadStatement(U.BulkHead(table) + U.Joined(instance, rows));
            if r.Refused? then Written(table, instance, rows) == []
            else r.rest == "" && Written(table, instance, rows) != []
                 && r.value == Statement(table, TuplesOf(instance, Written(table, instance, rows)))
  {
    hide U.BulkHead, U.Joined, ReadStatement, Words, MarksOf, SomeCrosses, AllPlain;
    StatementRead(table, instance, rows);
    var r := ReadStatement(U.BulkHead(table) + U.Joined(instance, rows));
    if r.Got? {
      assert r.value.tuples == TuplesOf(instance, RowsOf(r.value.tuples));
    }
  }

  lemma DoubledScan()
    ensures ScanOf("a''b") == Through("a'b")
  {
    assert "a''b"[1..] == "''b" && "''b"[2..] == "b" && "b"[1..] == "";
    assert ScanOf("b") == Through("b");
    assert ScanOf("''b") == Through("'b");
  }

  /** A doubled quote in a command is stored as one: `a''b` as `a'b`. */
  lemma QuoteLost(table: string, instance: nat, count: int)
    requires ' ' !in table
    ensures Written(table, instance, [U.Row("a''b", count)]) == [U.Row("a'b", count)]
  {
    hide ReadStatement, ReadCommand, After, U.BulkHead, U.Joined, ScanOf;
    var rows := [U.Row("a''b", count)];
    StatementIs(table, instance, rows);
    assert rows[1..] == [];
    CommandStep(instance, "a''b", count, []);
    DoubledScan();
    assert RowsOf([Tuple(instance, U.Row("a'b", count))]) == [U.Row("a'b", count)];
  }

  const ESCAPES := map['0' := 0, 'b' := 8, 't' := 9, 'n' := 10, 'r' := 13, 'Z' := 26]

  /** An escaped character stands for the one of the table, or for itself; before `%` and `_` it keeps the
      backslash. */
  lemma EscapeRead(c: char)
    ensures ReadLiteral(['\\', c, '\''])
            == Got(if c in ['%', '_'] then ['\\', c] else if c in ESCAPES then [ESCAPES[c] as char] else [c], "")
  {
    var s := ['\\', c, '\''];
    assert s[2..] == "'" && "'"[1..] == "";
    assert Step(s) == 2 && !Alone(s);
    assert ReadLiteral("'") == Got("", "");
    assert Piece(s) + "" == Piece(s);
    assert s[..2] == ['\\', c];
    assert c in ESCAPES ==> Unescaped(c) == ESCAPES[c] as char;
  }
}
