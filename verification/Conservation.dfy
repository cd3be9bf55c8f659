/** When the counts of a module survive the way from its printed usage to the rows the database server
    reads off the statement (`Utilities/Analytics.cpp`, `Utilities/SqlUtils.cpp`). */
module Conservation {
  import opened Digits
  import opened SqlText
  import opened Texts
  import U = Usage

  ghost predicate PlainModule(calls: seq<U.Call>, id: int) {
    forall c :: U.Added(calls, id, c) > 0 ==> Plain(c)
  }

  // ----- marks of the printed usage and of the words in it

  lemma UnmarkedDecimal(n: nat)
    ensures Marks(Decimal(n)) == 0
  {
    NoMarks(Decimal(n));
  }

  function MarksOfAll(texts: seq<string>): nat {
    if texts == [] then 0 else Marks(texts[0]) + MarksOfAll(texts[1..])
  }

  lemma EntryMarks(c: string, n: nat)
    ensures Marks(U.Entry(c, n)) == Marks(c)
  {
    hide Marks;
    MarksConcat(c, "," + Decimal(n));
    MarksConcat(",", Decimal(n));
    UnmarkedDecimal(n);
    NoMarks(",");
    assert U.Entry(c, n) == c + ("," + Decimal(n));
  }

  lemma {:induction false} PrintMarks(usage: U.Counts, order: seq<string>)
    ensures Marks(U.Print(usage, order)) == MarksOfAll(order)
  {
    hide Marks, U.Entry, U.Get;
    if order == [] {
      NoMarks("");
    } else {
      var entry, later := U.Entry(order[0], U.Get(usage, order[0])), U.Print(usage, order[1..]);
      PrintMarks(usage, order[1..]);
      EntryMarks(order[0], U.Get(usage, order[0]));
      MarksConcat(entry + " ", later);
      MarksConcat(entry, " ");
      NoMarks(" ");
    }
  }

  lemma RowPrefix(word: string)
    ensures var n := FindChar(word, ',');
            && (U.RowOf(word) == [] || MarksOf(U.RowOf(word)) == Marks(word[..n]))
            && Marks(word) == Marks(word[..n]) + Marks(word[n..])
            && (n == |word| - 1 ==> U.RowOf(word) == [])
  {
    hide Marks, U.Atoi, FindChar;
    var n := FindChar(word, ',');
    assert word == word[..n] + word[n..];
    MarksConcat(word[..n], word[n..]);
    if U.RowOf(word) != [] {
      var row := U.RowOf(word)[0];
      assert U.RowOf(word) == [row] + [];
      MarksOfFirst(row, []);
    }
  }

  predicate QuoteComma(word: string) {
    |word| > 1 && word[|word| - 1] == ',' && word[|word| - 2] == '\''
  }

  /** A quote before the comma at the end of a word is in no row. */
  lemma RowMarks(word: string)
    ensures MarksOf(U.RowOf(word)) <= Marks(word)
    ensures QuoteComma(word) ==> MarksOf(U.RowOf(word)) < Marks(word)
  {
    hide Marks, U.RowOf;
    RowPrefix(word);
    NoRowMarks();
    var n := FindChar(word, ',');
    if QuoteComma(word) {
      QuoteCounts(word, |word| - 2);
      if n < |word| - 1 {
        assert word[n..][|word| - 2 - n] == '\'';
        QuoteCounts(word[n..], |word| - 2 - n);
      }
    }
  }

  lemma {:induction false} QuoteCounts(s: string, k: nat)
    requires k < |s| && s[k] == '\''
    ensures Marks(s) > 0
  {
    if k > 0 {
      QuoteCounts(s[1..], k - 1);
    }
  }

  lemma {:induction false} MarksOfConcat(a: seq<U.Row>, b: seq<U.Row>)
    ensures MarksOf(a + b) == MarksOf(a) + MarksOf(b)
  {
    hide Marks;
    if a == [] {
      assert a + b == b;
    } else {
      assert (a + b)[1..] == a[1..] + b;
      MarksOfConcat(a[1..], b);
    }
  }

  lemma SpacesUnmarked(s: string, i: nat, j: nat)
    requires i <= j <= |s| && forall k :: i <= k < j ==> U.IsSpace(s[k])
    ensures Marks(s[i..j]) == 0
  {
    NoMarks(s[i..j]);
  }

  /** The marks of a text are those of its first word and of what follows. */
  lemma WordStep(s: string, i: nat)
    requires i <= |s| && U.SkipSpace(s, i) < |s|
    ensures var j := U.SkipSpace(s, i);
            var end := U.WordEnd(s, j);
            && end > j
            && Marks(s[i..]) == Marks(s[j..end]) + Marks(s[end..])
            && MarksOf(U.Rows(U.Words(s, i))) == MarksOf(U.RowOf(s[j..end])) + MarksOf(U.Rows(U.Words(s, end)))
  {
    hide Marks, MarksOf, U.RowOf, U.Rows, U.IsSpace, U.Words, U.SkipSpace, U.WordEnd;
    FirstWord(s, i);
    var j := U.SkipSpace(s, i);
    var end := U.WordEnd(s, j);
    SpacesUnmarked(s, i, j);
    SliceMarks(s, i, j, end);
    U.RowsOfFirst(s[j..end], U.Words(s, end));
    MarksOfConcat(U.RowOf(s[j..end]), U.Rows(U.Words(s, end)));
  }

  lemma SliceMarks(s: string, i: nat, j: nat, end: nat)
    requires i <= j <= end <= |s|
    ensures Marks(s[i..]) == Marks(s[i..j]) + Marks(s[j..end]) + Marks(s[end..])
  {
    hide Marks;
    assert s[i..] == s[i..j] + s[j..];
    MarksConcat(s[i..j], s[j..]);
    assert s[j..] == s[j..end] + s[end..];
    MarksConcat(s[j..end], s[end..]);
  }

  lemma FirstWord(s: string, i: nat)
    requires i <= |s| && U.SkipSpace(s, i) < |s|
    ensures var j := U.SkipSpace(s, i);
            var end := U.WordEnd(s, j);
            end > j && U.Words(s, i) == [s[j..end]] + U.Words(s, end)
  {}

  lemma NoWordMarks(s: string, i: nat)
    requires i <= |s| && U.SkipSpace(s, i) == |s|
    ensures MarksOf(U.Rows(U.Words(s, i))) == 0 && forall k :: i <= k < |s| ==> !CrossesAt(s, k)
  {}

  /** A crossing behind `i` ends the first word behind `i` or comes after it. */
  lemma CrossingPlace(s: string, i: nat, k: nat)
    requires i <= k < |s| && CrossesAt(s, k) && U.SkipSpace(s, i) < |s|
    ensures var j := U.SkipSpace(s, i);
            var end := U.WordEnd(s, j);
            k >= end || (k >= j && end == k + 2 && QuoteComma(s[j..end]))
  {
    var j := U.SkipSpace(s, i);
    var end := U.WordEnd(s, j);
    if k < end {
      assert k >= j && end == k + 2;
      assert s[j..end][|s[j..end]| - 1] == s[k + 1] && s[j..end][|s[j..end]| - 2] == s[k];
    }
  }

  /** The rows of a text have no more marks than the text, and fewer if it has a quote, a comma and a
      blank in a row. */
  lemma {:induction false} WordsMarks(s: string, i: nat)
    requires i <= |s|
    ensures MarksOf(U.Rows(U.Words(s, i))) <= Marks(s[i..])
    ensures forall k :: i <= k < |s| && CrossesAt(s, k) ==> MarksOf(U.Rows(U.Words(s, i))) < Marks(s[i..])
    decreases |s| - i
  {
    hide Marks, MarksOf, U.RowOf, U.Rows, U.Words, CrossesAt, QuoteComma;
    var j := U.SkipSpace(s, i);
    if j == |s| {
      NoWordMarks(s, i);
    } else {
      var end := U.WordEnd(s, j);
      WordStep(s, i);
      WordsMarks(s, end);
      RowMarks(s[j..end]);
      forall k | i <= k < |s| && CrossesAt(s, k) ensures MarksOf(U.Rows(U.Words(s, i))) < Marks(s[i..]) {
        CrossingPlace(s, i, k);
      }
    }
  }

  lemma NoRowMarks()
    ensures U.Rows([]) == [] && MarksOf([]) == 0
  {}

  // ----- conserved exactly for clean and plain commands

  function Commands(rows: seq<U.Row>): (r: seq<string>)
    ensures |r| == |rows| && forall k :: 0 <= k < |rows| ==> r[k] == rows[k].command
  {
    seq(|rows|, k requires 0 <= k < |rows| => rows[k].command)
  }

  lemma {:induction false} CommandMarks(rows: seq<U.Row>)
    ensures MarksOfAll(Commands(rows)) == MarksOf(rows)
  {
    hide Marks;
    if rows != [] {
      CommandMarks(rows[1..]);
      assert Commands(rows)[1..] == Commands(rows[1..]);
    }
  }

  lemma {:induction false} MarksWithout(texts: seq<string>, j: nat)
    requires j < |texts|
    ensures MarksOfAll(texts) == Marks(texts[j]) + MarksOfAll(texts[..j] + texts[j + 1..])
  {
    hide Marks;
    var rest := texts[..j] + texts[j + 1..];
    if j == 0 {
      assert rest == texts[1..];
    } else {
      MarksWithout(texts[1..], j - 1);
      assert rest[1..] == texts[1..][..j - 1] + texts[1..][j..] && rest[0] == texts[0];
    }
  }

  /** Different texts that all occur among others have no more marks. */
  lemma {:induction false} MarksAmong(some: seq<string>, all: seq<string>)
    requires forall i, j :: 0 <= i < j < |some| ==> some[i] != some[j]
    requires forall i :: 0 <= i < |some| ==> some[i] in all
    ensures MarksOfAll(some) <= MarksOfAll(all)
    decreases |some|
  {
    hide Marks;
    if some != [] {
      var j :| 0 <= j < |all| && all[j] == some[0];
      var rest := all[..j] + all[j + 1..];
      MarksWithout(all, j);
      forall i | 1 <= i < |some| ensures some[i] in rest {
        var k :| 0 <= k < |all| && all[k] == some[i];
        assert all[k] == rest[if k < j then k else k - 1];
      }
      MarksAmong(some[1..], rest);
    }
  }

  lemma {:induction false} MarksOneMore(texts: seq<string>, t: string)
    ensures MarksOfAll(texts + [t]) == MarksOfAll(texts) + Marks(t)
  {
    MarksWithout(texts + [t], |texts|);
    assert (texts + [t])[..|texts|] + (texts + [t])[|texts| + 1..] == texts;
  }

  lemma CountedOccurs(rows: seq<U.Row>, c: string)
    requires U.Total(rows, c) != 0
    ensures c in Commands(rows)
  {
    if forall k :: 0 <= k < |rows| ==> rows[k].command != c {
      U.NoTotal(rows, c);
    } else {
      var k :| 0 <= k < |rows| && rows[k].command == c;
      assert Commands(rows)[k] == c;
    }
  }

  /** A printed command that crosses makes the printed text do so. */
  lemma {:induction false} PrintCrosses(usage: U.Counts, order: seq<string>, i: nat)
    requires i < |order| && Crosses(order[i])
    ensures Crosses(U.Print(usage, order))
  {
    hide Decimal, U.Get;
    var entry := U.Entry(order[0], U.Get(usage, order[0]));
    var later := U.Print(usage, order[1..]);
    var s := U.Print(usage, order);
    assert s == entry + " " + later;
    if i == 0 {
      var k :| 0 <= k < |order[0]| && CrossesAt(order[0], k);
      assert forall x :: 0 <= x < |order[0]| ==> s[x] == order[0][x];
      assert CrossesAt(s, k);
    } else {
      PrintCrosses(usage, order[1..], i - 1);
      var k :| 0 <= k < |later| && CrossesAt(later, k);
      var n := |entry| + 1;
      assert s[n..] == later;
      assert s[n + k] == later[k] && s[n + k + 1] == later[k + 1] && s[n + k + 2] == later[k + 2];
      assert CrossesAt(s, n + k);
    }
  }

  lemma CrossingMarks(c: string)
    requires Crosses(c)
    ensures Marks(c) > 0
  {
    var k :| 0 <= k < |c| && CrossesAt(c, k);
    QuoteCounts(c, k);
  }

  /** A literal that has run over the end of its command gives a command that was never printed, or one
      whose marks were lost before. */
  lemma NoCrossing(usage: U.Counts, order: seq<string>, tuples: seq<Tuple>)
    requires forall i, j :: 0 <= i < j < |order| ==> order[i] != order[j]
    requires forall i :: 0 <= i < |order| ==> order[i] in Commands(RowsOf(tuples))
    requires SomeCrosses(tuples)
    ensures MarksOf(U.Rows(U.Words(U.Print(usage, order), 0))) < MarksOf(RowsOf(tuples))
  {
    hide Marks, MarksOf, U.Rows, U.Words, U.Print, Crosses;
    var k :| 0 <= k < |tuples| && Crosses(tuples[k].row.command);
    var c := tuples[k].row.command;
    var all := Commands(RowsOf(tuples));
    var s := U.Print(usage, order);
    assert all[k] == c;
    assert s[0..] == s;
    CommandMarks(RowsOf(tuples));
    PrintMarks(usage, order);
    WordsMarks(s, 0);
    if c in order {
      MarksAmong(order, all);
      var i :| 0 <= i < |order| && order[i] == c;
      PrintCrosses(usage, order, i);
      CrossingFound(s);
    } else {
      MarksAmong(order + [c], all);
      MarksOneMore(order, c);
      CrossingMarks(c);
    }
  }

  lemma CrossingFound(s: string)
    requires Crosses(s)
    ensures exists k :: 0 <= k < |s| && CrossesAt(s, k)
  {}

  /** The rows of the printed usage of a module. */
  function Parsed(m: U.Module, order: seq<string>): seq<U.Row> {
    U.Rows(U.Words(U.Print(m.usage, order), 0))
  }

  lemma ParsedWords(m: U.Module, order: seq<string>)
    ensures Words("", Parsed(m, order))
  {
    hide U.Rows, U.Words, U.Print, U.IsSpace;
    U.RowsAreClean(U.Print(m.usage, order), 0);
  }

  /** What the server reads off the statement counts every command of the module as often as it was added. */
  ghost predicate Conserved(m: U.Module, calls: seq<U.Call>, order: seq<string>, table: string, instance: nat) {
    forall c :: U.Total(Written(table, instance, Parsed(m, order)), c) == U.Added(calls, m.id, c)
  }

  lemma ConservedIsRead(m: U.Module, calls: seq<U.Call>, order: seq<string>, table: string, instance: nat)
    requires U.Tracks(m, calls) && m.commands == [] && U.Visits(order, m.usage) && ' ' !in table
    requires Written(table, instance, Parsed(m, order)) != []
    requires Conserved(m, calls, order, table, instance)
    ensures Written(table, instance, Parsed(m, order)) == Parsed(m, order) && AllPlain(Parsed(m, order))
  {
    hide Parsed, U.Total, U.Added, U.BulkHead, U.Joined, ReadStatement, Plain, MarksOf, Marks, U.Size, Crosses, Words;
    var rows, order' := Parsed(m, order), order;
    var r := ReadStatement(U.BulkHead(table) + U.Joined(instance, rows));
    var tuples := r.value.tuples;
    ParsedWords(m, order);
    StatementRead(table, instance, rows);
    assert forall c :: U.Get(m.usage, c) + multiset(m.commands)[c] == U.Added(calls, m.id, c);
    forall i | 0 <= i < |order| ensures order[i] in Commands(RowsOf(tuples)) {
      assert order[i] in m.usage;
      CountedOccurs(RowsOf(tuples), order[i]);
    }
    MarksParsed(m, order);
    MarksAmong(order, Commands(RowsOf(tuples)));
    CommandMarks(RowsOf(tuples));
    if SomeCrosses(tuples) {
      CrossingLoses(m, order, tuples);
    }
    assert RowsOf(TuplesOf(instance, rows)) == rows;
  }

  lemma MarksParsed(m: U.Module, order: seq<string>)
    ensures MarksOf(Parsed(m, order)) <= MarksOfAll(order)
  {
    hide Marks, MarksOf, U.Rows, U.Words, U.Print;
    var s := U.Print(m.usage, order);
    WordsMarks(s, 0);
    PrintMarks(m.usage, order);
    assert s[0..] == s;
  }

  lemma CrossingLoses(m: U.Module, order: seq<string>, tuples: seq<Tuple>)
    requires forall i, j :: 0 <= i < j < |order| ==> order[i] != order[j]
    requires forall i :: 0 <= i < |order| ==> order[i] in Commands(RowsOf(tuples))
    requires SomeCrosses(tuples)
    ensures MarksOf(Parsed(m, order)) < MarksOf(RowsOf(tuples))
  {
    hide SomeCrosses, MarksOf, U.Rows, U.Words, U.Print;
    NoCrossing(m.usage, order, tuples);
  }

  lemma PlainParsed(m: U.Module, calls: seq<U.Call>, order: seq<string>)
    requires U.Tracks(m, calls) && m.commands == [] && U.Visits(order, m.usage)
    requires U.CleanModule(calls, m.id) && PlainModule(calls, m.id)
    ensures AllPlain(Parsed(m, order))
  {
    hide U.Rows, U.Words, U.Print, U.Size, U.Added, U.Clean, Plain;
    assert forall d :: U.Get(m.usage, d) + multiset(m.commands)[d] == U.Added(calls, m.id, d);
    forall k | 0 <= k < |order| ensures U.Clean(order[k]) && Plain(order[k]) && U.Get(m.usage, order[k]) > 0 {
      assert order[k] in m.usage;
    }
    U.PrintedRowsFrom(m.usage, order, U.Print(m.usage, order), 0);
    RowsOfOrder(m.usage, order);
  }

  lemma {:induction false} RowsOfOrder(usage: U.Counts, order: seq<string>)
    ensures |U.RowsOf(usage, order)| == |order|
    ensures forall k :: 0 <= k < |order| ==> U.RowsOf(usage, order)[k].command == order[k]
    decreases |order|
  {
    if order != [] {
      RowsOfOrder(usage, order[1..]);
    }
  }

  lemma PlainIsWritten(table: string, instance: nat, rows: seq<U.Row>)
    requires ' ' !in table && Words("", rows) && AllPlain(rows)
    ensures Written(table, instance, rows) == rows
  {
    hide U.BulkHead, U.Joined, ReadStatement, Plain, Words;
    if rows != [] {
      StatementRead(table, instance, rows);
      assert RowsOf(TuplesOf(instance, rows)) == rows;
    }
  }

  lemma ConservedIsCleanAndPlain(m: U.Module, calls: seq<U.Call>, order: seq<string>, table: string, instance: nat)
    requires U.Tracks(m, calls) && m.commands == [] && U.Visits(order, m.usage) && ' ' !in table
    requires Conserved(m, calls, order, table, instance)
    ensures U.CleanModule(calls, m.id) && PlainModule(calls, m.id)
  {
    hide U.Tracks, U.Visits, U.Total, U.Added, U.Clean, Written, Plain;
    var rows := Parsed(m, order);
    if Written(table, instance, rows) == [] {
      NothingCounted();
      assert forall c :: U.Added(calls, m.id, c) == U.Total(Written(table, instance, rows), c) == 0;
    } else {
      ConservedIsRead(m, calls, order, table, instance);
      U.ConservedIsClean(m, calls, order);
      forall c | U.Added(calls, m.id, c) > 0 ensures Plain(c) {
        CountedOccurs(rows, c);
      }
    }
  }

  lemma CleanAndPlainIsConserved(m: U.Module, calls: seq<U.Call>, order: seq<string>, table: string, instance: nat)
    requires U.Tracks(m, calls) && m.commands == [] && U.Visits(order, m.usage) && ' ' !in table
    requires U.CleanModule(calls, m.id) && PlainModule(calls, m.id)
    ensures Conserved(m, calls, order, table, instance)
  {
    hide U.Tracks, U.Visits, U.Total, U.Added, U.CleanModule, PlainModule, Written, Words, AllPlain;
    ParsedWords(m, order);
    PlainParsed(m, calls, order);
    PlainIsWritten(table, instance, Parsed(m, order));
    forall c ensures U.Total(Written(table, instance, Parsed(m, order)), c) == U.Added(calls, m.id, c) {
      U.CleanIsConserved(m, calls, order, c);
    }
  }

  /** What the server reads off the statement gives every command of a module the number of times it was
      added, exactly if the module's commands are clean and plain. */
  lemma WrittenConserved(m: U.Module, calls: seq<U.Call>, order: seq<string>, table: string, instance: nat)
    requires U.Tracks(m, calls) && m.commands == [] && U.Visits(order, m.usage) && ' ' !in table
    ensures U.CleanModule(calls, m.id) && PlainModule(calls, m.id) <==> Conserved(m, calls, order, table, instance)
  {
    hide U.Tracks, U.Visits, U.CleanModule, PlainModule, Conserved;
    if U.CleanModule(calls, m.id) && PlainModule(calls, m.id) {
      CleanAndPlainIsConserved(m, calls, order, table, instance);
    } else if Conserved(m, calls, order, table, instance) {
      ConservedIsCleanAndPlain(m, calls, order, table, instance);
    }
  }

  lemma NothingCounted()
    ensures forall c :: U.Total([], c) == 0
  {}
}
