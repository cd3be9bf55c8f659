/** What one message does to the database: `InsertDatabase` of `Utilities/SqlUtils.cpp`, on tables of
    values. The replies of the server to each statement are an argument. */
module Database {
  import Q = SqlText
  import U = Usage

  /** The parsed message; `Malformed` is a text that is not JSON. */
  datatype Message = Malformed | Json(header: Header, analytics: seq<Section>)

  datatype Header = Header(datetime: string, code: string, pcname: string, program: string, version: int, release: int)

  datatype Section = Section(moduleName: string, usage: string)

  datatype Instance = Instance(id: nat, header: Header)

  datatype ModuleRow = ModuleRow(table: string, instance: int, row: U.Row)

  datatype Tables = Tables(instances: seq<Instance>, rows: seq<ModuleRow>)

  /** `nextId` is the counter of `AUTO_INCREMENT`, which a rollback does not turn back. */
  datatype Db = Db(committed: Tables, nextId: nat)

  /** Whether the instance statement succeeds, its id is reported, and the bulk statement of each
      section succeeds. */
  datatype Replies = Replies(instanceOk: bool, idKnown: bool, bulkOk: seq<bool>)

  function BulkOk(replies: Replies, i: nat): bool {
    i < |replies.bulkOk| && replies.bulkOk[i]
  }

  /** `FindTableName`; no table is the empty name. */
  function TableName(moduleName: string): string {
    if moduleName == "Survey" then "SurveyTbl"
    else if moduleName == "Terrain" then "TerrainTbl"
    else if moduleName == "Road" then "RoadTbl"
    else if moduleName == "Sewer" then "SewerTbl"
    else if moduleName == "Storm" then "StormTbl"
    else if moduleName == "Water" then "WaterTbl"
    else if moduleName == "Signage" then "SignageTbl"
    else ""
  }

  /** The modules that have tables. */
  const MODULES := {"Survey", "Terrain", "Road", "Sewer", "Storm", "Water", "Signage"}

  /** A module's table is called after it; any other name has none. */
  lemma TableNames(name: string)
    ensures TableName(name) == if name in MODULES then name + "Tbl" else ""
    ensures name in MODULES ==> ' ' !in name + "Tbl"
  {}

  function InTable(table: string, instance: int, rows: seq<U.Row>): (r: seq<ModuleRow>)
    ensures |r| == |rows| && forall i :: 0 <= i < |rows| ==> r[i] == ModuleRow(table, instance, rows[i])
  {
    seq(|rows|, i requires 0 <= i < |rows| => ModuleRow(table, instance, rows[i]))
  }

  /** The rows that the words of a usage text make. */
  function UsageRows(s: Section): seq<U.Row> {
    U.Rows(U.Words(s.usage, 0))
  }

  /** The rows that the statement of a section inserts. */
  function SectionRows(s: Section, instance: nat): seq<U.Row> {
    if TableName(s.moduleName) == "" then [] else Q.Written(TableName(s.moduleName), instance, UsageRows(s))
  }

  /** The working tables and the number of bulk inserts after the sections from `i` on. */
  function InsertSections(work: Tables, instance: nat, analytics: seq<Section>, i: nat, replies: Replies, n: nat): (Tables, nat)
    requires i <= |analytics|
    decreases |analytics| - i
  {
    if i == |analytics| then (work, n)
    else
      var rows := SectionRows(analytics[i], instance);
      if rows != [] && BulkOk(replies, i) then
        var more := InTable(TableName(analytics[i].moduleName), instance, rows);
        InsertSections(work.(rows := work.rows + more), instance, analytics, i + 1, replies, n + 1)
      else InsertSections(work, instance, analytics, i + 1, replies, n)
  }

  /** The database after the message, and the number returned. */
  function Insert(db: Db, msg: Message, replies: Replies): (Db, nat) {
    if msg.Malformed? then (db, 0)
    else if !replies.instanceOk then (db, 0)
    else if !replies.idKnown || db.nextId == 0 then (db.(nextId := db.nextId + 1), 0)
    else
      var work := db.committed.(instances := db.committed.instances + [Instance(db.nextId, msg.header)]);
      var (work, n) := InsertSections(work, db.nextId, msg.analytics, 0, replies, 0);
      (Db(if n > 0 then work else db.committed, db.nextId + 1), n)
  }

  // ----- what is committed fits together

  ghost predicate HasInstance(t: Tables, id: int) {
    exists i :: 0 <= i < |t.instances| && t.instances[i].id == id
  }

  /** Rows of the instance come with its record, which holds all of the message's header. */
  ghost predicate Headed(t: Tables, id: nat, header: Header) {
    forall i :: 0 <= i < |t.rows| && t.rows[i].instance == id ==> Instance(id, header) in t.instances
  }

  ghost predicate HasRow(t: Tables, id: int) {
    exists i :: 0 <= i < |t.rows| && t.rows[i].instance == id
  }

  /** Every row belongs to an instance, every instance has a row and no id is used twice or ahead
      of the counter. */
  ghost predicate Linked(db: Db) {
    var t := db.committed;
    && (forall i :: 0 <= i < |t.rows| ==> HasInstance(t, t.rows[i].instance))
    && (forall i :: 0 <= i < |t.instances| ==> HasRow(t, t.instances[i].id) && 0 < t.instances[i].id < db.nextId)
    && (forall i, j :: 0 <= i < j < |t.instances| ==> t.instances[i].id < t.instances[j].id)
  }

  /** The sections only append rows of the new instance; a bulk insert that counts brings a row. */
  lemma {:induction false} SectionsAppend(work: Tables, instance: nat, analytics: seq<Section>, i: nat, replies: Replies, n: nat)
    requires i <= |analytics|
    ensures var (r, k) := InsertSections(work, instance, analytics, i, replies, n);
            && r.instances == work.instances && work.rows <= r.rows && k >= n
            && (forall j :: |work.rows| <= j < |r.rows| ==> r.rows[j].instance == instance)
            && (k > n <==> |r.rows| > |work.rows|)
    decreases |analytics| - i
  {
    hide SectionRows, TableName;
    if i < |analytics| {
      var rows := SectionRows(analytics[i], instance);
      if rows != [] && BulkOk(replies, i) {
        var more := InTable(TableName(analytics[i].moduleName), instance, rows);
        SectionsAppend(work.(rows := work.rows + more), instance, analytics, i + 1, replies, n + 1);
      } else {
        SectionsAppend(work, instance, analytics, i + 1, replies, n);
      }
    }
  }

  /** A message is inserted whole, with at least one row, or leaves the tables as they were. */
  lemma InsertKeepsLinked(db: Db, msg: Message, replies: Replies)
    requires Linked(db)
    ensures var (r, n) := Insert(db, msg, replies);
            && Linked(r) && r.nextId >= db.nextId
            && db.committed.instances <= r.committed.instances && db.committed.rows <= r.committed.rows
            && (n == 0 <==> r.committed == db.committed)
            && (n > 0 ==> |r.committed.instances| == |db.committed.instances| + 1)
  {
    hide InsertSections, HasInstance, HasRow;
    var (r, n) := Insert(db, msg, replies);
    if n > 0 {
      var work := db.committed.(instances := db.committed.instances + [Instance(db.nextId, msg.header)]);
      SectionsAppend(work, db.nextId, msg.analytics, 0, replies, 0);
      LinkedAfter(db, r, msg.header);
    }
  }

  /** A table that has grown keeps its instances and rows. */
  lemma GrownKeeps(t: Tables, t': Tables, id: int)
    requires t.instances <= t'.instances && t.rows <= t'.rows
    ensures HasInstance(t, id) ==> HasInstance(t', id)
    ensures HasRow(t, id) ==> HasRow(t', id)
  {
    if HasInstance(t, id) {
      var k :| 0 <= k < |t.instances| && t.instances[k].id == id;
      assert t'.instances[k] == t.instances[k];
    }
    if HasRow(t, id) {
      var k :| 0 <= k < |t.rows| && t.rows[k].instance == id;
      assert t'.rows[k] == t.rows[k];
    }
  }

  lemma NewInstance(t: Tables, t': Tables, instance: Instance)
    requires t'.instances == t.instances + [instance] && t.rows < t'.rows && t'.rows[|t.rows|].instance == instance.id
    ensures HasInstance(t', instance.id) && HasRow(t', instance.id)
  {
    assert t'.instances[|t.instances|] == instance;
  }

  lemma LinkedAfter(db: Db, r: Db, header: Header)
    requires Linked(db) && r.nextId == db.nextId + 1 && db.nextId > 0
    requires r.committed.instances == db.committed.instances + [Instance(db.nextId, header)]
    requires db.committed.rows < r.committed.rows
    requires forall j :: |db.committed.rows| <= j < |r.committed.rows| ==> r.committed.rows[j].instance == db.nextId
    ensures Linked(r)
  {
    hide HasInstance, HasRow;
    var t, t' := db.committed, r.committed;
    NewInstance(t, t', Instance(db.nextId, header));
    forall i | 0 <= i < |t'.rows| ensures HasInstance(t', t'.rows[i].instance) {
      if i < |t.rows| {
        assert t'.rows[i] == t.rows[i];
        GrownKeeps(t, t', t.rows[i].instance);
      }
    }
    forall i | 0 <= i < |t'.instances| ensures HasRow(t', t'.instances[i].id) {
      if i < |t.instances| {
        assert t'.instances[i] == t.instances[i];
        GrownKeeps(t, t', t.instances[i].id);
      }
    }
  }
}
