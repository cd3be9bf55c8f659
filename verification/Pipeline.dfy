/** From the commands a client adds (`Utilities/Analytics.cpp`) to the rows the server commits
    (`Utilities/SqlUtils.cpp`). */
module Pipeline {
  import SqlText
  import U = Usage
  import V = Conservation
  import opened Database

  /** `moduleNames`; an id that is not listed reads as the empty name. */
  function ModuleName(id: int): string {
    if id == 1 then "Survey"
    else if id == 2 then "Terrain"
    else if id == 3 then "Road"
    else if id == 4 then "Sewer"
    else if id == 5 then "Storm"
    else if id == 6 then "Water"
    else if id == 12 then "Signage"
    else ""
  }

  /** The ids that are listed, with their names. */
  const LISTED := {(1, "Survey"), (2, "Terrain"), (3, "Road"), (4, "Sewer"), (5, "Storm"), (6, "Water"), (12, "Signage")}

  lemma ModuleNames(id: int, name: string)
    ensures name != "" ==> (ModuleName(id) == name <==> (id, name) in LISTED)
    ensures (id, name) in LISTED ==> name in MODULES
  {}

  lemma ListedTable(id: int, name: string)
    requires (id, name) in LISTED
    ensures Table(id) == name + "Tbl"
  {
    hide ModuleName, TableName;
    TableNames(name);
    ModuleNames(id, name);
    NoEmptyName(id, name);
  }

  lemma NoEmptyName(id: int, name: string)
    requires (id, name) in LISTED
    ensures name != ""
  {}

  function Table(id: int): string {
    TableName(ModuleName(id))
  }

  /** `Analytics::ToJson`, the hash map of module `i` being visited in `orders[i]`. */
  function Payload(header: Header, data: seq<U.Module>, orders: seq<seq<string>>): (msg: Message)
    requires |orders| == |data|
    ensures msg.Json? && msg.header == header && |msg.analytics| == |data|
    ensures forall i :: 0 <= i < |data| ==>
              msg.analytics[i] == Section(ModuleName(data[i].id), U.Print(data[i].usage, orders[i]))
  {
    Json(header, seq(|data|, i requires 0 <= i < |data| =>
                       Section(ModuleName(data[i].id), U.Print(data[i].usage, orders[i]))))
  }

  ghost predicate VisitsAll(orders: seq<seq<string>>, data: seq<U.Module>) {
    |orders| == |data| && forall i :: 0 <= i < |data| ==> U.Visits(orders[i], data[i].usage)
  }

  /** What the rows of one table say about a command of one instance, in total. */
  function Stored(rows: seq<ModuleRow>, table: string, instance: nat, c: string): int {
    if rows == [] then 0
    else
      var r := rows[|rows| - 1];
      Stored(rows[..|rows| - 1], table, instance, c)
      + (if r.table == table && r.instance == instance && r.row.command == c then r.row.count else 0)
  }

  lemma {:induction false} StoredNone(rows: seq<ModuleRow>, table: string, instance: nat, c: string)
    requires forall i :: 0 <= i < |rows| ==> rows[i].instance != instance
    ensures Stored(rows, table, instance, c) == 0
  {
    if rows != [] {
      StoredNone(rows[..|rows| - 1], table, instance, c);
    }
  }

  lemma {:induction false} StoredMore(rows: seq<ModuleRow>, table': string, instance: nat, more: seq<U.Row>,
                                      table: string, c: string)
    ensures Stored(rows + InTable(table', instance, more), table, instance, c)
            == Stored(rows, table, instance, c) + (if table' == table then U.Total(more, c) else 0)
    decreases |more|
  {
    var all := rows + InTable(table', instance, more);
    if more == [] {
      assert all == rows;
    } else {
      var first := ModuleRow(table', instance, more[0]);
      assert all == (rows + [first]) + InTable(table', instance, more[1..]);
      StoredMore(rows + [first], table', instance, more[1..], table, c);
      assert (rows + [first])[..|rows|] == rows;
    }
  }

  /** What the sections from `i` on bring into a table. */
  function Brought(analytics: seq<Section>, instance: nat, i: nat, replies: Replies, table: string, c: string): int
    requires i <= |analytics|
    decreases |analytics| - i
  {
    if i == |analytics| then 0
    else
      (if BulkOk(replies, i) && TableName(analytics[i].moduleName) == table then U.Total(SectionRows(analytics[i], instance), c) else 0)
      + Brought(analytics, instance, i + 1, replies, table, c)
  }

  lemma {:induction false} SectionsBring(work: Tables, instance: nat, analytics: seq<Section>, i: nat,
                                         replies: Replies, n: nat, table: string, c: string)
    requires i <= |analytics|
    ensures var (r, _) := InsertSections(work, instance, analytics, i, replies, n);
            Stored(r.rows, table, instance, c)
            == Stored(work.rows, table, instance, c) + Brought(analytics, instance, i, replies, table, c)
    decreases |analytics| - i
  {
    hide SectionRows, TableName, Stored;
    if i < |analytics| {
      var rows := SectionRows(analytics[i], instance);
      if rows != [] && BulkOk(replies, i) {
        var t := TableName(analytics[i].moduleName);
        StoredMore(work.rows, t, instance, rows, table, c);
        SectionsBring(work.(rows := work.rows + InTable(t, instance, rows)), instance, analytics, i + 1, replies, n + 1, table, c);
      } else {
        SectionsBring(work, instance, analytics, i + 1, replies, n, table, c);
      }
    }
  }

  /** A table is filled by the section of its module alone. */
  lemma {:induction false} BroughtByOne(analytics: seq<Section>, instance: nat, i: nat, k: nat, replies: Replies,
                                        table: string, c: string)
    requires i <= |analytics|
    requires forall j :: i <= j < |analytics| && j != k ==> TableName(analytics[j].moduleName) != table
    ensures Brought(analytics, instance, i, replies, table, c)
            == if i <= k < |analytics| && BulkOk(replies, k) && TableName(analytics[k].moduleName) == table
               then U.Total(SectionRows(analytics[k], instance), c) else 0
    decreases |analytics| - i
  {
    hide SectionRows, TableName, BulkOk;
    if i < |analytics| {
      BroughtByOne(analytics, instance, i + 1, k, replies, table, c);
    }
  }

  lemma TablesDiffer(id: int, id': int)
    requires Table(id) != "" && Table(id') == Table(id)
    ensures id' == id
  {}

  lemma InsertedTotal(db: Db, msg: Message, replies: Replies, table: string, c: string)
    requires Linked(db) && msg.Json?
    ensures Stored(Insert(db, msg, replies).0.committed.rows, table, db.nextId, c)
            == if replies.instanceOk && replies.idKnown && db.nextId > 0
               then Brought(msg.analytics, db.nextId, 0, replies, table, c) else 0
  {
    hide InsertSections, Stored, Brought;
    NoRowsAhead(db);
    StoredNone(db.committed.rows, table, db.nextId, c);
    if replies.instanceOk && replies.idKnown && db.nextId > 0 {
      var work := db.committed.(instances := db.committed.instances + [Instance(db.nextId, msg.header)]);
      SectionsBring(work, db.nextId, msg.analytics, 0, replies, 0, table, c);
      SectionsAppend(work, db.nextId, msg.analytics, 0, replies, 0);
      var (t, n) := InsertSections(work, db.nextId, msg.analytics, 0, replies, 0);
      assert n == 0 ==> t.rows == work.rows;
    }
  }

  lemma NoRowsAhead(db: Db)
    requires Linked(db)
    ensures forall i :: 0 <= i < |db.committed.rows| ==> db.committed.rows[i].instance != db.nextId
  {
    var t := db.committed;
    forall i | 0 <= i < |t.rows| ensures t.rows[i].instance != db.nextId {
      assert HasInstance(t, t.rows[i].instance);
    }
  }

  lemma HeaderStored(db: Db, msg: Message, replies: Replies)
    requires Linked(db) && msg.Json?
    ensures Headed(Insert(db, msg, replies).0.committed, db.nextId, msg.header)
  {
    hide InsertSections;
    NoRowsAhead(db);
    var work := db.committed.(instances := db.committed.instances + [Instance(db.nextId, msg.header)]);
    SectionsAppend(work, db.nextId, msg.analytics, 0, replies, 0);
  }

  /** What the server reads off the statement for a module counts a command for. */
  function Counted(m: U.Module, order: seq<string>, instance: nat, c: string): int {
    U.Total(SqlText.Written(Table(m.id), instance, V.Parsed(m, order)), c)
  }

  /** What the tables hold of a module's commands after its message: what its statement counts them
      for, or nothing if the server refused the instance or the rows of that very module. */
  lemma ModuleStored(data: seq<U.Module>, header: Header, orders: seq<seq<string>>, db: Db, replies: Replies, id: int, c: string)
    requires U.Distinct(data) && |orders| == |data| && Linked(db) && Table(id) != ""
    ensures var i := U.Find(data, id);
            Stored(Insert(db, Payload(header, data, orders), replies).0.committed.rows, Table(id), db.nextId, c)
            == if i < |data| && Stores(db, replies, i) then Counted(data[i], orders[i], db.nextId, c) else 0
  {
    hide Insert, Stored, Brought, U.Rows, U.Words, U.Print, U.Total, BulkOk, ModuleName, SqlText.Written;
    var i := U.Find(data, id);
    var msg := Payload(header, data, orders);
    InsertedTotal(db, msg, replies, Table(id), c);
    forall j | 0 <= j < |data| && j != i ensures TableName(msg.analytics[j].moduleName) != Table(id) {
      if Table(data[j].id) == Table(id) {
        TablesDiffer(id, data[j].id);
      }
    }
    BroughtByOne(msg.analytics, db.nextId, 0, i, replies, Table(id), c);
  }

  /** The server takes the instance, tells its id and does not refuse the rows of section `i`. */
  predicate Stores(db: Db, replies: Replies, i: nat) {
    replies.instanceOk && replies.idKnown && db.nextId > 0 && BulkOk(replies, i)
  }

  /** Commands that survive: neither empty nor with white space, comma or quote, and with a backslash
      only before a percent sign or an underscore. */
  ghost predicate Safe(calls: seq<U.Call>, id: int) {
    U.CleanModule(calls, id) && V.PlainModule(calls, id)
  }

  /** The rows hold, under an instance, every command of a module exactly as often as it was added,
      exactly if the module's commands are safe; or, if the server refused them, none. */
  ghost predicate Accounted(calls: seq<U.Call>, id: int, name: string, instance: nat, stores: bool, rows: seq<ModuleRow>) {
    if stores
    then Safe(calls, id) <==> forall c :: Stored(rows, name + "Tbl", instance, c) == U.Added(calls, id, c)
    else forall c :: Stored(rows, name + "Tbl", instance, c) == 0
  }

  /** Every command of a module that has a table is stored exactly as often as it was added, exactly
      if the module's commands are safe; where the server refuses the instance or the rows of that
      very module, none of it is stored. */
  lemma CommandsConserved(calls: seq<U.Call>, header: Header, orders: seq<seq<string>>, db: Db, replies: Replies, id: int, name: string)
    requires U.Size(calls) < 0x8000_0000
    requires VisitsAll(orders, U.History(calls + [U.GatherUsage]))
    requires Linked(db) && (id, name) in LISTED
    ensures var data := U.History(calls + [U.GatherUsage]);
            Accounted(calls, id, name, db.nextId, Stores(db, replies, U.Find(data, id)),
                      Insert(db, Payload(header, data, orders), replies).0.committed.rows)
    ensures Headed(Insert(db, Payload(header, U.History(calls + [U.GatherUsage]), orders), replies).0.committed, db.nextId, header)
  {
    hide U.History, Insert, Stored, Stores, U.Size, Counted, U.Added, Safe, Linked, Table, Payload, U.Visits;
    var data := U.History(calls + [U.GatherUsage]);
    var i := U.Find(data, id);
    ListedTable(id, name);
    HeaderStored(db, Payload(header, data, orders), replies);
    U.OneEntryPerModule(calls + [U.GatherUsage]);
    forall c ensures Stored(Insert(db, Payload(header, data, orders), replies).0.committed.rows, Table(id), db.nextId, c)
                     == if i < |data| && Stores(db, replies, i) then Counted(data[i], orders[i], db.nextId, c) else 0 {
      ModuleStored(data, header, orders, db, replies, id, c);
    }
    if i == |data| {
      U.GatheredTracked(calls, id);
      NothingAdded(calls, id);
    } else {
      ModuleCounted(calls, orders[i], db.nextId, id);
    }
  }

  /** The statement for a module counts each command as often as it was added exactly if they are safe. */
  lemma ModuleCounted(calls: seq<U.Call>, order: seq<string>, instance: nat, id: int)
    requires U.Size(calls) < 0x8000_0000
    requires var data := U.History(calls + [U.GatherUsage]);
             var i := U.Find(data, id); i < |data| && U.Visits(order, data[i].usage)
    ensures var data := U.History(calls + [U.GatherUsage]);
            Safe(calls, id) <==> forall c :: Counted(data[U.Find(data, id)], order, instance, c) == U.Added(calls, id, c)
  {
    hide U.History, U.Size, U.Added, U.Visits, SqlText.Written, V.Parsed, U.Total, U.Tracks, SqlText.Plain, U.Clean;
    var all := calls + [U.GatherUsage];
    var data := U.History(all);
    var m := data[U.Find(data, id)];
    U.GatheredTracked(calls, id);
    assert ' ' !in Table(id);
    V.WrittenConserved(m, all, order, Table(id), instance);
    assert Safe(all, id) <==> Safe(calls, id);
    if V.Conserved(m, all, order, Table(id), instance) {
      forall c ensures Counted(m, order, instance, c) == U.Added(calls, id, c) {
        assert U.Total(SqlText.Written(Table(id), instance, V.Parsed(m, order)), c) == U.Added(all, m.id, c);
      }
    } else {
      var c :| U.Total(SqlText.Written(Table(id), instance, V.Parsed(m, order)), c) != U.Added(all, m.id, c);
      assert Counted(m, order, instance, c) != U.Added(calls, id, c);
    }
  }

  lemma NothingAdded(calls: seq<U.Call>, id: int)
    requires forall c :: U.Added(calls, id, c) == 0
    ensures Safe(calls, id)
  {}
}
