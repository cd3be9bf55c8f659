/** From the commands added in a client, through any run of the server, to its committed tables. */
module EndToEnd {
  import U = Usage
  import opened Database
  import opened Pipeline
  import S = Server
  import O = ServerObjects

  lemma {:induction false} StoredSuffix(rows: seq<ModuleRow>, more: seq<ModuleRow>, table: string, instance: nat, c: string)
    requires forall i :: 0 <= i < |more| ==> more[i].instance != instance
    ensures Stored(rows + more, table, instance, c) == Stored(rows, table, instance, c)
    decreases |more|
  {
    if more == [] {
      assert rows + more == rows;
    } else {
      var front := more[..|more| - 1];
      StoredSuffix(rows, front, table, instance, c);
      assert (rows + more)[..|rows + more| - 1] == rows + front;
    }
  }

  /** A message does not touch what is stored of earlier instances. */
  lemma EarlierKept(db: Db, msg: Message, replies: Replies, table: string, instance: nat, c: string)
    requires instance < db.nextId
    ensures Stored(Insert(db, msg, replies).0.committed.rows, table, instance, c)
            == Stored(db.committed.rows, table, instance, c)
    ensures instance < Insert(db, msg, replies).0.nextId
  {
    hide InsertSections, Stored;
    if msg.Json? && replies.instanceOk && replies.idKnown {
      var work := db.committed.(instances := db.committed.instances + [Instance(db.nextId, msg.header)]);
      SectionsAppend(work, db.nextId, msg.analytics, 0, replies, 0);
      var rows := InsertSections(work, db.nextId, msg.analytics, 0, replies, 0).0.rows;
      StoredSuffix(work.rows, rows[|work.rows|..], table, instance, c);
      assert rows == work.rows + rows[|work.rows|..];
    }
  }

  /** The database after more messages of the log stores the same of an earlier instance. */
  lemma {:induction false} LogKeeps(parse: S.Parser, base: Db, log: seq<S.Entry>, k: nat, table: string, instance: nat, c: string)
    requires k <= |log| && instance < S.Fold(parse, base, log[..k]).nextId
    ensures Stored(S.Fold(parse, base, log).committed.rows, table, instance, c)
            == Stored(S.Fold(parse, base, log[..k]).committed.rows, table, instance, c)
    ensures instance < S.Fold(parse, base, log).nextId
    decreases |log|
  {
    hide Insert, Stored;
    if k == |log| {
      assert log[..k] == log;
    } else {
      var front, e := log[..|log| - 1], log[|log| - 1];
      assert front[..k] == log[..k];
      LogKeeps(parse, base, front, k, table, instance, c);
      EarlierKept(S.Fold(parse, base, front), parse(e.msg), e.replies, table, instance, c);
    }
  }

  /** What the committed tables hold of a module's commands under the instance of message `k` of the
      log, any messages later. */
  lemma StoredForGood(parse: S.Parser, base: Db, log: seq<S.Entry>, k: nat, table: string, c: string)
    requires k < |log| && parse(log[k].msg).Json? && log[k].replies.instanceOk
    ensures var db := S.Fold(parse, base, log[..k]);
            Stored(S.Fold(parse, base, log).committed.rows, table, db.nextId, c)
            == Stored(Insert(db, parse(log[k].msg), log[k].replies).0.committed.rows, table, db.nextId, c)
  {
    hide Insert, Stored;
    var e := log[k];
    var db := S.Fold(parse, base, log[..k]);
    assert log[..k + 1] == log[..k] + [e];
    S.FoldOneMore(parse, base, log[..k], e);
    IdUsed(db, parse(e.msg), e.replies);
    LogKeeps(parse, base, log, k + 1, table, db.nextId, c);
  }

  /** The instance records that have id `id` have this header. */
  predicate HeaderOf(t: Tables, id: nat, header: Header) {
    forall j :: 0 <= j < |t.instances| && t.instances[j].id == id ==> t.instances[j].header == header
  }

  lemma HeaderInserted(db: Db, msg: Message, replies: Replies, id: nat, header: Header)
    requires Linked(db)
    requires if id < db.nextId then HeaderOf(db.committed, id, header) else id == db.nextId && msg.Json? && msg.header == header
    ensures HeaderOf(Insert(db, msg, replies).0.committed, id, header)
  {
    hide InsertSections;
    if msg.Json? {
      var work := db.committed.(instances := db.committed.instances + [Instance(db.nextId, msg.header)]);
      SectionsAppend(work, db.nextId, msg.analytics, 0, replies, 0);
    }
  }

  lemma {:induction false} LogKeepsHeader(parse: S.Parser, base: Db, log: seq<S.Entry>, k: nat, id: nat, header: Header)
    requires Linked(base) && k <= |log| && id < S.Fold(parse, base, log[..k]).nextId
    requires HeaderOf(S.Fold(parse, base, log[..k]).committed, id, header)
    ensures HeaderOf(S.Fold(parse, base, log).committed, id, header) && id < S.Fold(parse, base, log).nextId
    decreases |log|
  {
    hide Insert, HeaderOf, Linked;
    if k == |log| {
      assert log[..k] == log;
    } else {
      var front, e := log[..|log| - 1], log[|log| - 1];
      assert front[..k] == log[..k];
      LogKeepsHeader(parse, base, front, k, id, header);
      S.FoldLinked(parse, base, front);
      HeaderInserted(S.Fold(parse, base, front), parse(e.msg), e.replies, id, header);
      InsertKeepsLinked(S.Fold(parse, base, front), parse(e.msg), e.replies);
    }
  }

  /** The header of message `k` of the log is that of its rows, any messages later. */
  lemma HeaderForGood(parse: S.Parser, base: Db, log: seq<S.Entry>, k: nat)
    requires Linked(base) && k < |log| && parse(log[k].msg).Json? && log[k].replies.instanceOk
    ensures Headed(S.Fold(parse, base, log).committed, S.Fold(parse, base, log[..k]).nextId, parse(log[k].msg).header)
  {
    hide Insert, HeaderOf, Linked, S.Fold;
    var e := log[k];
    var db := S.Fold(parse, base, log[..k]);
    var header := parse(e.msg).header;
    assert log[..k + 1] == log[..k] + [e];
    S.FoldOneMore(parse, base, log[..k], e);
    S.FoldLinked(parse, base, log[..k]);
    S.FoldLinked(parse, base, log);
    IdUsed(db, parse(e.msg), e.replies);
    HeaderInserted(db, parse(e.msg), e.replies, db.nextId, header);
    LogKeepsHeader(parse, base, log, k + 1, db.nextId, header);
    RowsHeaded(S.Fold(parse, base, log), db.nextId, header);
  }

  lemma RowsHeaded(db: Db, id: nat, header: Header)
    requires Linked(db) && HeaderOf(db.committed, id, header)
    ensures Headed(db.committed, id, header)
  {
    var t := db.committed;
    forall i | 0 <= i < |t.rows| && t.rows[i].instance == id ensures Instance(id, header) in t.instances {
      assert HasInstance(t, id);
      var j :| 0 <= j < |t.instances| && t.instances[j].id == id;
      assert t.instances[j] == Instance(id, header);
    }
  }

  /** The client's message is message `k` of the log. */
  ghost predicate Sent(calls: seq<U.Call>, header: Header, orders: seq<seq<string>>, parse: S.Parser, msg: string) {
    var data := U.History(calls + [U.GatherUsage]);
    && U.Size(calls) < 0x8000_0000 && VisitsAll(orders, data)
    && parse(msg) == Payload(header, data, orders)
  }

  /** The committed tables account for a module's commands under the instance of message `k` of the log. */
  ghost predicate Reached(calls: seq<U.Call>, header: Header, parse: S.Parser, base: Db, t: S.State, k: nat, id: int, name: string)
    requires k < |t.log|
  {
    var db := S.Fold(parse, base, t.log[..k]);
    && Accounted(calls, id, name, db.nextId, Stores(db, t.log[k].replies, U.Find(U.History(calls + [U.GatherUsage]), id)),
                 t.committed.rows)
    && Headed(t.committed, db.nextId, header)
  }

  /** Take any run of the server and a client's message that went through the database in it, its
      instance being accepted: its commands reach the tables. */
  lemma CommandsReachTables(
      calls: seq<U.Call>, header: Header, orders: seq<seq<string>>,
      parse: S.Parser, base: Db, steps: seq<S.Step>, t: S.State, k: nat, id: int, name: string)
    requires Linked(base) && S.Leads(parse, S.Start(base), steps, t) && (id, name) in LISTED
    requires k < |t.log| && t.log[k].replies.instanceOk && Sent(calls, header, orders, parse, t.log[k].msg)
    ensures Reached(calls, header, parse, base, t, k, id, name)
  {
    hide U.History, Insert, Stored, Stores, S.Leads, S.Fold, U.Size, Accounted, Headed, Linked, VisitsAll;
    var e := t.log[k];
    var db := S.Fold(parse, base, t.log[..k]);
    S.CommittedIsPrefix(parse, base, steps, t);
    S.FoldLinked(parse, base, t.log[..k]);
    CommandsConserved(calls, header, orders, db, e.replies, id, name);
    var rows := Insert(db, parse(e.msg), e.replies).0.committed.rows;
    forall c ensures Stored(t.committed.rows, name + "Tbl", db.nextId, c) == Stored(rows, name + "Tbl", db.nextId, c) {
      StoredForGood(parse, base, t.log, k, name + "Tbl", c);
    }
    HeaderForGood(parse, base, t.log, k);
    AccountedAlike(calls, id, name, db.nextId, Stores(db, e.replies, U.Find(U.History(calls + [U.GatherUsage]), id)),
                   rows, t.committed.rows);
  }

  lemma AccountedAlike(calls: seq<U.Call>, id: int, name: string, instance: nat, stores: bool, rows: seq<ModuleRow>, rows': seq<ModuleRow>)
    requires Accounted(calls, id, name, instance, stores, rows)
    requires forall c :: Stored(rows', name + "Tbl", instance, c) == Stored(rows, name + "Tbl", instance, c)
    ensures Accounted(calls, id, name, instance, stores, rows')
  {
    hide Stored, U.Added, Safe;
    if stores && !Safe(calls, id) {
      var c :| Stored(rows, name + "Tbl", instance, c) != U.Added(calls, id, c);
      assert Stored(rows', name + "Tbl", instance, c) != U.Added(calls, id, c);
    }
  }

  /** The server has come to rest without having been stopped. */
  ghost predicate AtRest(t: S.State) {
    !t.done && forall step :: S.Internal(step) ==> !S.Enabled(t, step)
  }

  /** Then this holds of every message that was produced. */
  lemma AllCommandsReachTables(
      calls: seq<U.Call>, header: Header, orders: seq<seq<string>>,
      parse: S.Parser, base: Db, steps: seq<S.Step>, t: S.State, k: nat, id: int, name: string)
    requires Linked(base) && S.Leads(parse, S.Start(base), steps, t) && (id, name) in LISTED && AtRest(t)
    requires k < |t.produced| && Sent(calls, header, orders, parse, t.produced[k])
    ensures k < |t.log| == |t.produced| && t.log[k].msg == t.produced[k]
    ensures t.log[k].replies.instanceOk ==> Reached(calls, header, parse, base, t, k, id, name)
  {
    hide Sent, Reached, S.Leads, S.Enabled, S.Invariant, S.Fold, Linked;
    S.StartInvariant(parse, base);
    S.InvariantKept(parse, base, S.Start(base), steps, t);
    S.RestIsDrained(parse, base, t);
    S.CommittedIsPrefix(parse, base, steps, t);
    if t.log[k].replies.instanceOk {
      CommandsReachTables(calls, header, orders, parse, base, steps, t, k, id, name);
    }
  }

  /** A client's text that was delivered in full reads becomes a message, and its commands reach the
      tables, exactly when its length is not a multiple of the buffer's; otherwise its connection has
      produced nothing. */
  lemma ClientTextReachesTables(
      calls: seq<U.Call>, header: Header, orders: seq<seq<string>>, text: string, c: nat,
      parse: S.Parser, base: Db, steps: seq<S.Step>, t: S.State, id: int, name: string)
    requires Linked(base) && S.Leads(parse, S.Start(base), steps, t) && (id, name) in LISTED && AtRest(t)
    requires text != "" && Sent(calls, header, orders, parse, text)
    requires c < |t.conns| && t.conns[c].chunks == O.FullReads(text)
    ensures c in t.origins <==> |text| % 100 != 0
    ensures |t.origins| == |t.log|
    ensures forall k :: 0 <= k < |t.origins| && t.origins[k] == c ==>
              t.log[k].msg == text && (t.log[k].replies.instanceOk ==> Reached(calls, header, parse, base, t, k, id, name))
  {
    hide Sent, Reached, S.Leads, S.Enabled, S.Fold, Linked, S.Threads, S.Flow, S.Data, S.Assembled, O.FullReads, AtRest;
    S.StartInvariant(parse, base);
    S.InvariantKept(parse, base, S.Start(base), steps, t);
    O.FramedInRun(t.conns[c], text);
    Drained(parse, base, steps, t);
    forall k | 0 <= k < |t.origins| && t.origins[k] == c
      ensures t.log[k].msg == text && (t.log[k].replies.instanceOk ==> Reached(calls, header, parse, base, t, k, id, name)) {
      AllCommandsReachTables(calls, header, orders, parse, base, steps, t, k, id, name);
    }
  }

  lemma Drained(parse: S.Parser, base: Db, steps: seq<S.Step>, t: S.State)
    requires S.Leads(parse, S.Start(base), steps, t) && AtRest(t)
    ensures |t.log| == |t.produced|
  {
    hide S.Leads, S.Enabled, S.Invariant, S.Fold;
    S.StartInvariant(parse, base);
    S.InvariantKept(parse, base, S.Start(base), steps, t);
    S.RestIsDrained(parse, base, t);
  }

  lemma IdUsed(db: Db, msg: Message, replies: Replies)
    requires msg.Json? && replies.instanceOk
    ensures Insert(db, msg, replies).0.nextId == db.nextId + 1
  {
    hide InsertSections;
  }
}
