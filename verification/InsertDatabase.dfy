/** `InsertDatabase` as it runs: words are read off the usage text while the statement grows, and
    the connection works on tables that are committed or rolled back (`Utilities/SqlUtils.cpp`). */
module InsertDatabase {
  import Q = SqlText
  import U = Usage
  import opened Database
  import opened Texts

  /** What the loop appends for one row. */
  function Piece(instance: nat, row: U.Row): string {
    U.RowText(instance, row) + ", "
  }

  lemma AppendedFirst(instance: nat, row: U.Row, rows: seq<U.Row>)
    ensures U.Appended(instance, [row] + rows) == Piece(instance, row) + U.Appended(instance, rows)
  {
    hide U.RowText;
    assert ([row] + rows)[1..] == rows;
  }

  lemma Regroup<T>(x: seq<T>, y: seq<T>, z: seq<T>)
    ensures x + (y + z) == x + y + z
  {}

  lemma {:induction false} AppendedOneMore(instance: nat, rows: seq<U.Row>, row: U.Row)
    ensures U.Appended(instance, rows + [row]) == U.Appended(instance, rows) + Piece(instance, row)
    decreases |rows|
  {
    hide Piece, U.Appended;
    if rows == [] {
      AppendedFirst(instance, row, []);
      NothingAppended(instance, Piece(instance, row));
      assert rows + [row] == [row] + [];
    } else {
      var first, rest := [rows[0]], rows[1..];
      AppendedOneMore(instance, rest, row);
      AppendedFirst(instance, rows[0], rest + [row]);
      AppendedFirst(instance, rows[0], rest);
      assert rows == first + rest;
      Regroup(first, rest, [row]);
      Regroup(Piece(instance, rows[0]), U.Appended(instance, rest), Piece(instance, row));
    }
  }

  lemma NothingAppended(instance: nat, piece: string)
    ensures U.Appended(instance, []) == "" && piece + "" == piece == "" + piece
  {}

  /** A connection to the server, `working` being what the current transaction sees. */
  class Connection {
    var committed: Tables
    var working: Tables
    var nextId: nat

    constructor (db: Db)
      ensures Idle() && View() == db
    {
      committed, working, nextId := db.committed, db.committed, db.nextId;
    }

    function View(): Db
      reads this
    {
      Db(committed, nextId)
    }

    /** No change is waiting to be committed. */
    predicate Idle()
      reads this
    {
      working == committed
    }

    method InsertInstance(header: Header, ok: bool)
      modifies this`working, this`nextId
      ensures !ok ==> working == old(working) && nextId == old(nextId)
      ensures ok ==> working == old(working).(instances := old(working).instances + [Instance(old(nextId), header)])
                     && nextId == old(nextId) + 1
    {
      if ok {
        working := working.(instances := working.instances + [Instance(nextId, header)]);
        nextId := nextId + 1;
      }
    }

    /** Runs the statement `text`: inserts what is read off it, if it can be read and is not refused. */
    method InsertRows(text: string, ok: bool) returns (accepted: bool)
      modifies this`working
      ensures var r := Q.ReadStatement(text);
              && accepted == (ok && r.Got? && r.rest == "")
              && working == if accepted then old(working).(rows := old(working).rows + RowsOf(r.value)) else old(working)
    {
      var r := Q.ReadStatement(text);
      accepted := ok && r.Got? && r.rest == "";
      if accepted {
        working := working.(rows := working.rows + RowsOf(r.value));
      }
    }

    static function RowsOf(statement: Q.Statement): (rows: seq<ModuleRow>)
      ensures |rows| == |statement.tuples|
      ensures forall k :: 0 <= k < |rows| ==>
                rows[k] == ModuleRow(statement.table, statement.tuples[k].instance, statement.tuples[k].row)
    {
      seq(|statement.tuples|, k requires 0 <= k < |statement.tuples| =>
        ModuleRow(statement.table, statement.tuples[k].instance, statement.tuples[k].row))
    }

    method Commit()
      modifies this`committed
      ensures committed == working
    {
      committed := working;
    }

    method Rollback()
      modifies this`working
      ensures working == committed
    {
      working := committed;
    }

    /** The loop over the words of one usage text. */
    static method ReadRows(table: string, instance: nat, usage: string) returns (bulk: string, rows: seq<U.Row>)
      ensures rows == U.Rows(U.Words(usage, 0))
      ensures bulk == U.BulkHead(table) + U.Appended(instance, rows)
    {
      hide U.BulkHead, U.Appended, Piece, U.Words, U.Rows, U.Atoi;
      bulk, rows := U.BulkHead(table), [];
      NoRowsYet(table, instance, usage);
      var at := U.SkipSpace(usage, 0);
      while at != |usage|
        invariant at <= |usage| && (at < |usage| ==> !U.IsSpace(usage[at]))
        invariant rows + U.Rows(U.Words(usage, at)) == U.Rows(U.Words(usage, 0))
        invariant bulk == U.BulkHead(table) + U.Appended(instance, rows)
        decreases |usage| - at
      {
        var end := U.WordEnd(usage, at);
        var word := usage[at..end];
        NextWord(usage, at);
        ghost var before := rows;
        at := U.SkipSpace(usage, end);
        ghost var later := U.Rows(U.Words(usage, at));
        var found := FindChar(word, ',');
        var command := word[..found];
        var second := if found == |word| then word else word[found + 1..];
        var count := U.Atoi(second);
        if command == "" || second == "" || count == 0 {
          assert [] + later == later;
          continue;
        }
        var row := U.Row(command, count);
        AppendedOneMore(instance, rows, row);
        bulk := bulk + Piece(instance, row);
        rows := rows + [row];
        Regroup(U.BulkHead(table), U.Appended(instance, before), Piece(instance, row));
        Regroup(before, [row], later);
      }
      U.NoWords(usage);
    }

    static lemma NoRowsYet(table: string, instance: nat, usage: string)
      ensures U.BulkHead(table) + U.Appended(instance, []) == U.BulkHead(table)
      ensures U.Words(usage, U.SkipSpace(usage, 0)) == U.Words(usage, 0)
    {
      SkippedTwice(usage, 0);
    }

    static lemma SkippedTwice(usage: string, i: nat)
      requires i <= |usage|
      ensures U.SkipSpace(usage, U.SkipSpace(usage, i)) == U.SkipSpace(usage, i)
      ensures U.Words(usage, U.SkipSpace(usage, i)) == U.Words(usage, i)
    {}

    static lemma NextWord(usage: string, i: nat)
      requires i < |usage| && !U.IsSpace(usage[i])
      ensures var end := U.WordEnd(usage, i);
              && end > i
              && U.Rows(U.Words(usage, i)) == U.RowOf(usage[i..end]) + U.Rows(U.Words(usage, U.SkipSpace(usage, end)))
    {
      hide U.RowOf, U.IsSpace, U.Rows;
      var end := U.WordEnd(usage, i);
      assert U.SkipSpace(usage, i) == i;
      SkippedTwice(usage, end);
      U.RowsOfFirst(usage[i..end], U.Words(usage, end));
    }

    /** One round of the loop over the sections. */
    method InsertSection(instance: nat, s: Section, ok: bool) returns (inserted: bool)
      modifies this`working
      ensures var rows := if s.moduleName in MODULES
                          then Q.Written(s.moduleName + "Tbl", instance, U.Rows(U.Words(s.usage, 0))) else [];
              && SectionRows(s, instance) == rows && inserted == (rows != [] && ok)
              && working == if inserted
                            then old(working).(rows := old(working).rows + InTable(s.moduleName + "Tbl", instance, rows))
                            else old(working)
    {
      TableNames(s.moduleName);
      hide U.Rows, U.Words, U.TrimRight, U.BulkHead, U.Joined, U.Appended, Q.ReadStatement, TableName, Q.Written;
      var table := TableName(s.moduleName);
      if table == "" {
        return false;
      }
      var bulk, rows := ReadRows(table, instance, s.usage);
      var values := |rows|;
      bulk := U.TrimRight(bulk, ", ");
      inserted := false;
      NothingWritten(table, instance);
      if values > 0 {
        StatementInserts(s, instance);
        inserted := InsertRows(bulk, ok);
      }
    }

    static lemma NothingWritten(table: string, instance: nat)
      ensures Q.Written(table, instance, []) == []
    {}

    static lemma UsageWords(s: Section)
      ensures Q.Words("", UsageRows(s))
    {
      hide U.Rows, U.Words, U.IsSpace;
      U.RowsAreClean(s.usage, 0);
    }

    /** The statement of a section inserts its rows. */
    static lemma StatementInserts(s: Section, instance: nat)
      requires TableName(s.moduleName) != "" && UsageRows(s) != []
      ensures var table := TableName(s.moduleName);
              var r := Q.ReadStatement(U.TrimRight(U.BulkHead(table) + U.Appended(instance, UsageRows(s)), ", "));
              if r.Got? && r.rest == ""
              then SectionRows(s, instance) != [] && RowsOf(r.value) == InTable(table, instance, SectionRows(s, instance))
              else SectionRows(s, instance) == []
    {
      hide U.Rows, U.Words, U.TrimRight, U.BulkHead, U.Joined, U.Appended, Q.ReadStatement, Q.Written, Q.Words, TableName;
      var table := TableName(s.moduleName);
      TableNames(s.moduleName);
      U.TrimmedBulkIsJoin(table, instance, UsageRows(s));
      UsageWords(s);
      Q.WrittenStatement(table, instance, UsageRows(s));
    }

    /** The whole message, in one transaction. */
    method Insert(msg: Message, replies: Replies) returns (numInserts: nat)
      requires Idle()
      modifies this
      ensures Idle() && (View(), numInserts) == Database.Insert(old(View()), msg, replies)
    {
      hide SectionRows, TableName, Q.Written, U.Rows, U.Words;
      numInserts := 0;
      if msg.Malformed? {
        return;
      }
      InsertInstance(msg.header, replies.instanceOk);
      var instance := if replies.instanceOk && replies.idKnown then nextId - 1 else 0;
      if instance == 0 {
        Rollback();
        return;
      }
      ghost var goal := InsertSections(working, instance, msg.analytics, 0, replies, 0);
      for i := 0 to |msg.analytics|
        invariant committed == old(committed) && nextId == old(nextId) + 1
        invariant InsertSections(working, instance, msg.analytics, i, replies, numInserts) == goal
      {
        TableNames(msg.analytics[i].moduleName);
        var inserted := InsertSection(instance, msg.analytics[i], BulkOk(replies, i));
        if inserted {
          numInserts := numInserts + 1;
        }
      }
      if numInserts > 0 {
        Commit();
      } else {
        Rollback();
      }
    }
  }
}
