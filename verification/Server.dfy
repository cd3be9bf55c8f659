/** The server while it runs: one thread completes reads and produces messages
    (`ServerBA/ServerConnection.cpp`), another consumes them (`ServerBA/ProducerConsumer.cpp`). The
    steps below are what one thread does between two points at which the other can come in. */
module Server {
  import opened Database

  const BUF_SIZE := 100

  /** What a text parses to. */
  type Parser = string -> Message

  // ----- the state

  datatype Phase = Reading | Framed | Broken

  /** A connection, with the chunks its reads have delivered so far. */
  datatype Conn = Conn(chunks: seq<string>, recv: string, phase: Phase)

  /** Where the reading thread is in `Produce`. */
  datatype Io = Idle | Locking(msg: string) | Locked(msg: string) | Pushed | Notified

  /** Where the consuming thread is in `Consume`, and within it in `InsertDatabase`. */
  datatype Consumer =
    | AtLock | Testing | Waiting | Woken
    | Draining
    | InsertInstance | AskId | Sections(instance: nat, i: nat, n: nat, replies: seq<bool>)
    | Popping

  datatype Owner = Free | ByIo | ByConsumer

  datatype Entry = Entry(msg: string, replies: Replies)

  /** `produced` (with the connection each message came from) and `log` are histories: the texts given
      to `Produce`, and the texts that went through `InsertDatabase` with the replies met there. */
  datatype State = State(
    conns: seq<Conn>, io: Io, consumer: Consumer, lock: Owner, queue: seq<string>, done: bool,
    committed: Tables, working: Tables, nextId: nat,
    produced: seq<string>, origins: seq<nat>, log: seq<Entry>)

  function Start(base: Db): State {
    State([], Idle, AtLock, Free, [], false, base.committed, base.committed, base.nextId, [], [], [])
  }

  // ----- the steps

  /** `Consuming` carries the reply of the database where a statement is sent; elsewhere it is ignored. */
  datatype Step =
    | Accept | Read(c: nat, chunk: string) | ReadError(c: nat)
    | Producing | Consuming(reply: bool)
    | SpuriousWake | StopConsuming

  predicate CanConsume(s: State) {
    match s.consumer
    case AtLock | Woken => s.lock.Free?
    case Testing | Draining => true
    case Waiting => false
    case _ => s.queue != []
  }

  predicate Enabled(s: State, step: Step) {
    match step
    case Accept => s.io.Idle?
    case Read(c, chunk) => s.io.Idle? && c < |s.conns| && s.conns[c].phase.Reading? && |chunk| <= BUF_SIZE
    case ReadError(c) => s.io.Idle? && c < |s.conns| && s.conns[c].phase.Reading?
    case Producing => !s.io.Idle? && (s.io.Locking? ==> s.lock.Free?)
    case Consuming(_) => CanConsume(s)
    case SpuriousWake => s.consumer.Waiting?
    case StopConsuming => true
  }

  /** `HandleRead`: the received text, and whether more is to be read. */
  function HandleRead(recv: string, chunk: string): (string, bool) {
    (recv + chunk, |chunk| == BUF_SIZE)
  }

  function Completed(s: State, c: nat, chunk: string): State
    requires c < |s.conns|
  {
    var (recv, more) := HandleRead(s.conns[c].recv, chunk);
    var conn := Conn(s.conns[c].chunks + [chunk], recv, if more then Reading else Framed);
    var s' := s.(conns := s.conns[c := conn]);
    if more then s'
    else s'.(io := Locking(recv), produced := s.produced + [recv], origins := s.origins + [c])
  }

  function Produce(s: State): State
    requires !s.io.Idle?
  {
    match s.io
    case Locking(msg) => s.(io := Locked(msg), lock := ByIo)
    case Locked(msg) => s.(io := Pushed, queue := s.queue + [msg])
    case Pushed => s.(io := Notified, consumer := if s.consumer.Waiting? then Woken else s.consumer)
    case Notified => s.(io := Idle, lock := Free)
  }

  /** The wait is over: there is something to consume, and consuming is not to stop. */
  predicate Wanted(s: State) {
    s.queue != [] && !s.done
  }

  function Inserted(s: State, replies: Replies): State
    requires s.queue != []
  {
    s.(consumer := Popping, log := s.log + [Entry(s.queue[0], replies)])
  }

  function Sent(parse: Parser, s: State, reply: bool): State
    requires s.queue != []
  {
    match parse(s.queue[0])
    case Malformed => Inserted(s, Replies(false, false, []))
    case Json(header, _) =>
      if reply then
        s.(consumer := AskId, nextId := s.nextId + 1,
           working := s.working.(instances := s.working.instances + [Instance(s.nextId, header)]))
      else Inserted(s.(working := s.committed), Replies(false, false, []))
  }

  function Asked(s: State, reply: bool): State
    requires s.queue != []
  {
    if reply && s.nextId > 1 then s.(consumer := Sections(s.nextId - 1, 0, 0, []))
    else Inserted(s.(working := s.committed), Replies(true, reply, []))
  }

  function SectionDone(s: State, analytics: seq<Section>, reply: bool): State
    requires s.consumer.Sections? && s.queue != []
  {
    var Sections(instance, i, n, replies) := s.consumer;
    if i < |analytics| then
      var (work, n') := InsertSection(s.working, instance, analytics[i], reply, n);
      s.(working := work, consumer := Sections(instance, i + 1, n', replies + [reply]))
    else
      var s' := if n > 0 then s.(committed := s.working) else s.(working := s.committed);
      Inserted(s', Replies(true, true, replies))
  }

  function InsertSection(work: Tables, instance: nat, section: Section, reply: bool, n: nat): (Tables, nat) {
    var rows := SectionRows(section, instance);
    if rows != [] && reply then (work.(rows := work.rows + InTable(TableName(section.moduleName), instance, rows)), n + 1)
    else (work, n)
  }

  function AnalyticsOf(msg: Message): seq<Section> {
    if msg.Json? then msg.analytics else []
  }

  function Consume(parse: Parser, s: State, reply: bool): State
    requires Enabled(s, Consuming(reply))
  {
    match s.consumer
    case AtLock | Woken => s.(consumer := Testing, lock := ByConsumer)
    case Testing => if Wanted(s) then s.(consumer := Draining) else s.(consumer := Waiting, lock := Free)
    case Draining => if s.queue == [] then s.(consumer := AtLock, lock := Free) else s.(consumer := InsertInstance)
    case InsertInstance => Sent(parse, s, reply)
    case AskId => Asked(s, reply)
    case Sections(_, _, _, _) => SectionDone(s, AnalyticsOf(parse(s.queue[0])), reply)
    case Popping => s.(consumer := Draining, queue := s.queue[1..])
  }

  function Apply(parse: Parser, s: State, step: Step): State
    requires Enabled(s, step)
  {
    match step
    case Accept => s.(conns := s.conns + [Conn([], "", Reading)])
    case Read(c, chunk) => Completed(s, c, chunk)
    case ReadError(c) => s.(conns := s.conns[c := s.conns[c].(phase := Broken)])
    case Producing => Produce(s)
    case Consuming(reply) => Consume(parse, s, reply)
    case SpuriousWake => s.(consumer := Woken)
    case StopConsuming => s.(done := true)
  }

  /** The steps can be taken from `s` one after another, and end in `t`. */
  ghost predicate Leads(parse: Parser, s: State, steps: seq<Step>, t: State)
    decreases |steps|
  {
    if steps == [] then t == s
    else Enabled(s, steps[0]) && Leads(parse, Apply(parse, s, steps[0]), steps[1..], t)
  }

  // ----- the lock and the wait

  predicate HoldsLock(consumer: Consumer) {
    !(consumer.AtLock? || consumer.Waiting? || consumer.Woken?)
  }

  predicate HasMessage(consumer: Consumer) {
    consumer.InsertInstance? || consumer.AskId? || consumer.Sections? || consumer.Popping?
  }

  /** At most one thread is between taking and releasing the mutex; a message is taken from a queue
      that has one; and the consumer waits on a non-empty queue only if it is to stop or is about to
      be notified. */
  predicate Threads(s: State) {
    && (s.lock.ByIo? <==> s.io.Locked? || s.io.Pushed? || s.io.Notified?)
    && (s.lock.ByConsumer? <==> HoldsLock(s.consumer))
    && (HasMessage(s.consumer) ==> s.queue != [])
    && (s.consumer.Waiting? && s.queue != [] ==> s.done || s.io.Pushed?)
  }

  /** Inside `InsertDatabase`. */
  predicate Inserting(consumer: Consumer) {
    consumer.InsertInstance? || consumer.AskId? || consumer.Sections?
  }

  /** `t` differs from `s` in the tables and in how far the front message has been inserted. */
  predicate StillInserting(s: State, t: State)
    requires s.queue != []
  {
    && t.conns == s.conns && t.io == s.io && t.lock == s.lock && t.queue == s.queue && t.done == s.done
    && t.produced == s.produced && t.origins == s.origins
    && if t.consumer.Popping? then |t.log| == |s.log| + 1 && t.log == s.log + [t.log[|s.log|]] && t.log[|s.log|].msg == s.queue[0]
       else Inserting(t.consumer) && t.log == s.log
  }

  lemma SentKeepsRest(parse: Parser, s: State, reply: bool)
    requires s.queue != []
    ensures StillInserting(s, Sent(parse, s, reply))
  {}

  lemma AskedKeepsRest(s: State, reply: bool)
    requires s.queue != []
    ensures StillInserting(s, Asked(s, reply))
  {}

  lemma SectionKeepsRest(s: State, analytics: seq<Section>, reply: bool)
    requires s.consumer.Sections? && s.queue != []
    ensures StillInserting(s, SectionDone(s, analytics, reply))
  {
    hide InsertSection;
  }

  lemma ConsumeKeepsRest(parse: Parser, s: State, reply: bool)
    requires Inserting(s.consumer) && s.queue != []
    ensures StillInserting(s, Consume(parse, s, reply))
  {
    hide Sent, Asked, SectionDone, AnalyticsOf, StillInserting;
    match s.consumer
    case InsertInstance => SentKeepsRest(parse, s, reply);
    case AskId => AskedKeepsRest(s, reply);
    case Sections(_, _, _, _) => SectionKeepsRest(s, AnalyticsOf(parse(s.queue[0])), reply);
  }

  lemma ThreadsKeptConsuming(parse: Parser, s: State, reply: bool)
    requires Threads(s) && Enabled(s, Consuming(reply))
    ensures Threads(Consume(parse, s, reply))
  {
    hide Sent, Asked, SectionDone, AnalyticsOf;
    if Inserting(s.consumer) {
      hide Consume;
      ConsumeKeepsRest(parse, s, reply);
    }
  }

  lemma ThreadsKept(parse: Parser, s: State, step: Step)
    requires Threads(s) && Enabled(s, step)
    ensures Threads(Apply(parse, s, step))
  {
    hide Consume;
    if step.Consuming? {
      ThreadsKeptConsuming(parse, s, step.reply);
    }
  }

  // ----- messages and the reads they came in

  function Concat(chunks: seq<string>): string {
    if chunks == [] then "" else Concat(chunks[..|chunks| - 1]) + chunks[|chunks| - 1]
  }

  /** Every chunk but the last is full, and the last is not. */
  predicate ShortLast(chunks: seq<string>) {
    chunks != [] && |chunks[|chunks| - 1]| < BUF_SIZE && forall k :: 0 <= k < |chunks| - 1 ==> |chunks[k]| == BUF_SIZE
  }

  predicate Assembled(conn: Conn) {
    && conn.recv == Concat(conn.chunks)
    && (conn.phase.Framed? ==> ShortLast(conn.chunks))
    && (!conn.phase.Framed? ==> forall k :: 0 <= k < |conn.chunks| ==> |conn.chunks[k]| == BUF_SIZE)
  }

  /** Each framed connection gave one message, the concatenation of its reads; no other message is
      produced. */
  ghost predicate Framing(s: State) {
    && (forall c :: 0 <= c < |s.conns| ==> Assembled(s.conns[c]))
    && |s.origins| == |s.produced|
    && (forall k :: 0 <= k < |s.origins| ==>
          s.origins[k] < |s.conns| && s.conns[s.origins[k]].phase.Framed? && s.conns[s.origins[k]].recv == s.produced[k])
    && (forall j, k :: 0 <= j < k < |s.origins| ==> s.origins[j] != s.origins[k])
    && (forall c :: 0 <= c < |s.conns| && s.conns[c].phase.Framed? ==> c in s.origins)
  }

  lemma CompletedIsAssembled(conn: Conn, chunk: string)
    requires Assembled(conn) && conn.phase.Reading? && |chunk| <= BUF_SIZE
    ensures var (recv, more) := HandleRead(conn.recv, chunk);
            Assembled(Conn(conn.chunks + [chunk], recv, if more then Reading else Framed))
  {
    assert (conn.chunks + [chunk])[..|conn.chunks|] == conn.chunks;
  }

  lemma FramingKept(parse: Parser, s: State, step: Step)
    requires Framing(s) && Enabled(s, step)
    ensures Framing(Apply(parse, s, step))
  {
    hide Assembled, Sent, Asked, SectionDone, InsertSection, AnalyticsOf, Wanted;
    var t := Apply(parse, s, step);
    match step
    case Accept => assert Assembled(Conn([], "", Reading)) by { NothingRead(); }
    case Read(c, chunk) =>
      CompletedIsAssembled(s.conns[c], chunk);
      assert forall k :: 0 <= k < |s.origins| ==> s.origins[k] != c;
      if |chunk| < BUF_SIZE {
        assert t.origins[|s.origins|] == c;
      }
    case ReadError(c) => BrokenIsAssembled(s.conns[c]);
    case _ => UntouchedReads(parse, s, step);
  }

  lemma NothingRead()
    ensures Assembled(Conn([], "", Reading))
  {}

  lemma BrokenIsAssembled(conn: Conn)
    requires Assembled(conn) && conn.phase.Reading?
    ensures Assembled(conn.(phase := Broken))
  {}

  lemma UntouchedReads(parse: Parser, s: State, step: Step)
    requires Enabled(s, step) && !step.Accept? && !step.Read? && !step.ReadError?
    ensures var t := Apply(parse, s, step);
            t.conns == s.conns && t.produced == s.produced && t.origins == s.origins
  {
    hide Consume;
    if step.Consuming? {
      ConsumeKeepsReads(parse, s, step.reply);
    }
  }

  lemma ConsumeKeepsReads(parse: Parser, s: State, reply: bool)
    requires Enabled(s, Consuming(reply))
    ensures var t := Consume(parse, s, reply);
            t.conns == s.conns && t.produced == s.produced && t.origins == s.origins
  {
    hide Sent, Asked, SectionDone, AnalyticsOf;
    if Inserting(s.consumer) {
      hide Consume;
      ConsumeKeepsRest(parse, s, reply);
    }
  }

  // ----- messages go through in order

  function Pending(io: Io): seq<string> {
    if io.Locking? || io.Locked? then [io.msg] else []
  }

  /** How many messages have left the queue. */
  function Left(s: State): int {
    |s.log| - if s.consumer.Popping? then 1 else 0
  }

  /** What was produced is what left the queue, what is in it, and what is on its way into it. */
  predicate Flow(s: State) {
    && 0 <= Left(s) <= |s.produced| && s.produced[Left(s)..] == s.queue + Pending(s.io)
    && |s.log| <= |s.produced| && (forall k :: 0 <= k < |s.log| ==> s.log[k].msg == s.produced[k])
  }

  /** Consuming moves the front message from the queue to the log: first into the log, then out of
      the queue. */
  lemma ConsumeShifts(parse: Parser, s: State, reply: bool)
    requires Threads(s) && Enabled(s, Consuming(reply))
    ensures var t := Consume(parse, s, reply);
            && t.produced == s.produced && t.io == s.io
            && t.queue == (if s.consumer.Popping? then s.queue[1..] else s.queue)
            && (s.consumer.Popping? ==> !t.consumer.Popping? && t.log == s.log)
            && (!s.consumer.Popping? && !t.consumer.Popping? ==> t.log == s.log)
            && (!s.consumer.Popping? && t.consumer.Popping? ==>
                  s.queue != [] && |t.log| == |s.log| + 1 && t.log == s.log + [t.log[|s.log|]] && t.log[|s.log|].msg == s.queue[0])
  {
    hide Sent, Asked, SectionDone, AnalyticsOf, Wanted, Threads;
    if Inserting(s.consumer) {
      ConsumeKeepsRest(parse, s, reply);
    }
  }

  lemma FlowKeptConsuming(parse: Parser, s: State, reply: bool)
    requires Flow(s) && Threads(s) && Enabled(s, Consuming(reply))
    ensures Flow(Consume(parse, s, reply))
  {
    hide Consume, Threads;
    ConsumeShifts(parse, s, reply);
    var t := Consume(parse, s, reply);
    hide Pending;
    if s.consumer.Popping? {
      PoppedFlow(parse, s, t);
    } else if t.consumer.Popping? {
      assert Left(t) == Left(s) == |s.log|;
      assert s.produced[Left(s)] == s.produced[Left(s)..][0] == s.queue[0];
    } else {
      assert Left(t) == Left(s);
    }
  }

  lemma PoppedFlow(parse: Parser, s: State, t: State)
    requires Flow(s) && s.consumer.Popping? && s.queue != [] && t.queue == s.queue[1..]
    requires t.produced == s.produced && t.io == s.io && t.log == s.log && !t.consumer.Popping?
    ensures Flow(t)
  {
    hide Pending;
    assert Left(t) == Left(s) + 1;
    assert s.produced[Left(s)..][1..] == s.produced[Left(t)..];
    assert (s.queue + Pending(s.io))[1..] == s.queue[1..] + Pending(s.io);
  }

  lemma FlowKeptReading(s: State, c: nat, chunk: string)
    requires Flow(s) && s.io.Idle? && c < |s.conns|
    ensures Flow(Completed(s, c, chunk))
  {
    var t := Completed(s, c, chunk);
    assert Left(t) == Left(s) && Pending(s.io) == [];
    var more := t.produced[|s.produced|..];
    assert t.produced == s.produced + more && more == Pending(t.io);
    assert t.produced[Left(s)..] == s.produced[Left(s)..] + more;
  }

  lemma FlowKeptProducing(s: State)
    requires Flow(s) && !s.io.Idle?
    ensures Flow(Produce(s))
  {
    var t := Produce(s);
    assert Left(t) == Left(s);
    assert t.queue + Pending(t.io) == s.queue + Pending(s.io);
  }

  lemma FlowKept(parse: Parser, s: State, step: Step)
    requires Flow(s) && Threads(s) && Enabled(s, step)
    ensures Flow(Apply(parse, s, step))
  {
    hide Consume, Completed, Produce, Threads;
    match step
    case Read(c, chunk) => FlowKeptReading(s, c, chunk);
    case Consuming(reply) => FlowKeptConsuming(parse, s, reply);
    case Producing => FlowKeptProducing(s);
    case _ =>
  }

  // ----- the database

  /** The database after the messages of a log, one `InsertDatabase` after another. */
  function Fold(parse: Parser, base: Db, log: seq<Entry>): Db {
    if log == [] then base
    else
      var e := log[|log| - 1];
      Insert(Fold(parse, base, log[..|log| - 1]), parse(e.msg), e.replies).0
  }

  lemma FoldOneMore(parse: Parser, base: Db, log: seq<Entry>, e: Entry)
    ensures Fold(parse, base, log + [e]) == Insert(Fold(parse, base, log), parse(e.msg), e.replies).0
  {
    assert (log + [e])[..|log|] == log;
  }

  lemma {:induction false} FoldLinked(parse: Parser, base: Db, log: seq<Entry>)
    requires Linked(base)
    ensures Linked(Fold(parse, base, log))
  {
    hide Linked, Insert;
    if log != [] {
      FoldLinked(parse, base, log[..|log| - 1]);
      var e := log[|log| - 1];
      InsertKeepsLinked(Fold(parse, base, log[..|log| - 1]), parse(e.msg), e.replies);
    }
  }

  /** The first `i` sections have been inserted, with the replies so far. */
  ghost predicate Midway(s: State, msg: Message, db: Db) {
    && s.consumer.Sections? && msg.Json?
    && var Sections(instance, i, n, replies) := s.consumer;
       && i <= |msg.analytics| && |replies| == i
       && instance > 0 && s.committed == db.committed && instance == db.nextId && s.nextId == instance + 1
       && var work := db.committed.(instances := db.committed.instances + [Instance(instance, msg.header)]);
          InsertSections(work, instance, msg.analytics[..i], 0, Replies(true, true, replies), 0) == (s.working, n)
  }

  /** What the tables are, wherever the consumer is: the fold of the messages gone through, and the
      work of the one that is going through. */
  ghost predicate Data(parse: Parser, base: Db, s: State) {
    var db := Fold(parse, base, s.log);
    match s.consumer
    case AskId =>
      && s.queue != [] && parse(s.queue[0]).Json?
      && s.committed == db.committed && s.nextId == db.nextId + 1
      && s.working == db.committed.(instances := db.committed.instances + [Instance(db.nextId, parse(s.queue[0]).header)])
    case Sections(_, _, _, _) => s.queue != [] && Midway(s, parse(s.queue[0]), db)
    case _ => s.working == s.committed && Db(s.committed, s.nextId) == db
  }

  lemma {:induction false} SectionsOneMore(work: Tables, instance: nat, front: seq<Section>, section: Section,
                                           j: nat, bulkOk: seq<bool>, reply: bool, n: nat)
    requires j <= |front| == |bulkOk|
    ensures var (w, k) := InsertSections(work, instance, front, j, Replies(true, true, bulkOk), n);
            InsertSections(work, instance, front + [section], j, Replies(true, true, bulkOk + [reply]), n)
            == InsertSection(w, instance, section, reply, k)
    decreases |front| - j
  {
    hide SectionRows, TableName;
    var all, replies := front + [section], Replies(true, true, bulkOk + [reply]);
    assert all[j] == (if j < |front| then front[j] else section);
    assert BulkOk(replies, j) == (if j < |front| then bulkOk[j] else reply);
    if j < |front| {
      var (w, k) := InsertSection(work, instance, front[j], bulkOk[j], n);
      SectionsOneMore(w, instance, front, section, j + 1, bulkOk, reply, k);
    } else {
      var (w, k) := InsertSection(work, instance, section, reply, n);
      assert InsertSections(w, instance, all, j + 1, replies, k) == (w, k);
    }
  }

  lemma SectionKept(s: State, msg: Message, db: Db, reply: bool)
    requires Midway(s, msg, db) && s.queue != [] && s.consumer.i < |msg.analytics|
    ensures Midway(SectionDone(s, msg.analytics, reply), msg, db)
  {
    hide InsertSection, InsertSections;
    var Sections(instance, i, n, replies) := s.consumer;
    var work := db.committed.(instances := db.committed.instances + [Instance(instance, msg.header)]);
    assert msg.analytics[..i + 1] == msg.analytics[..i] + [msg.analytics[i]];
    SectionsOneMore(work, instance, msg.analytics[..i], msg.analytics[i], 0, replies, reply, 0);
  }

  lemma SectionsEnd(s: State, msg: Message, db: Db, reply: bool)
    requires Midway(s, msg, db) && s.queue != [] && s.consumer.i == |msg.analytics|
    ensures var t := SectionDone(s, msg.analytics, reply);
            && t.consumer.Popping? && t.working == t.committed
            && t.log == s.log + [Entry(s.queue[0], Replies(true, true, s.consumer.replies))]
            && Db(t.committed, t.nextId) == Insert(db, msg, Replies(true, true, s.consumer.replies)).0
  {
    hide InsertSections;
    assert msg.analytics[..|msg.analytics|] == msg.analytics;
  }

  lemma DataKeptSections(parse: Parser, base: Db, s: State, reply: bool)
    requires Data(parse, base, s) && s.consumer.Sections? && s.queue != []
    ensures Data(parse, base, Consume(parse, s, reply))
  {
    hide Fold, Midway, SectionDone, InsertSections;
    var db := Fold(parse, base, s.log);
    var msg := parse(s.queue[0]);
    MidwayBounds(s, msg, db);
    var t := SectionDone(s, msg.analytics, reply);
    SectionKeepsRest(s, msg.analytics, reply);
    if s.consumer.i < |msg.analytics| {
      SectionKept(s, msg, db, reply);
      MidwayBounds(t, msg, db);
    } else {
      SectionsEnd(s, msg, db, reply);
      FoldOneMore(parse, base, s.log, t.log[|s.log|]);
    }
  }

  lemma DataKeptInserting(parse: Parser, base: Db, s: State, reply: bool)
    requires Data(parse, base, s) && HasMessage(s.consumer) && s.queue != []
    ensures Data(parse, base, Consume(parse, s, reply))
  {
    hide Fold, Midway, SectionDone, InsertSections, AnalyticsOf;
    var db := Fold(parse, base, s.log);
    var msg := parse(s.queue[0]);
    var t := Consume(parse, s, reply);
    if s.consumer.Sections? {
      hide Data, Consume;
      DataKeptSections(parse, base, s, reply);
    } else {
      if t.log != s.log {
        FoldOneMore(parse, base, s.log, t.log[|s.log|]);
      }
      if t.consumer.Sections? {
        MidwayStart(t, msg, db);
      }
    }
  }

  lemma MidwayBounds(s: State, msg: Message, db: Db)
    requires Midway(s, msg, db)
    ensures msg.Json? && s.consumer.Sections? && s.consumer.i <= |msg.analytics|
  {}

  lemma MidwayStart(s: State, msg: Message, db: Db)
    requires msg.Json? && s.consumer == Sections(db.nextId, 0, 0, []) && db.nextId > 0
    requires s.committed == db.committed && s.nextId == db.nextId + 1
    requires s.working == db.committed.(instances := db.committed.instances + [Instance(db.nextId, msg.header)])
    ensures Midway(s, msg, db)
  {}

  lemma DataKept(parse: Parser, base: Db, s: State, step: Step)
    requires Data(parse, base, s) && Threads(s) && Enabled(s, step)
    ensures Data(parse, base, Apply(parse, s, step))
  {
    hide Fold, Sent, Asked, SectionDone, InsertSections;
    if step.Consuming? && HasMessage(s.consumer) {
      DataKeptInserting(parse, base, s, step.reply);
    }
  }

  // ----- over every run

  ghost predicate Invariant(parse: Parser, base: Db, s: State) {
    Threads(s) && Framing(s) && Flow(s) && Data(parse, base, s)
  }

  lemma StartInvariant(parse: Parser, base: Db)
    ensures Invariant(parse, base, Start(base))
  {}

  lemma {:induction false} InvariantKept(parse: Parser, base: Db, s: State, steps: seq<Step>, t: State)
    requires Invariant(parse, base, s) && Leads(parse, s, steps, t)
    ensures Invariant(parse, base, t)
    decreases |steps|
  {
    hide Threads, Framing, Flow, Data, Apply, Enabled;
    if steps != [] {
      ThreadsKept(parse, s, steps[0]);
      FramingKept(parse, s, steps[0]);
      FlowKept(parse, s, steps[0]);
      DataKept(parse, base, s, steps[0]);
      InvariantKept(parse, base, Apply(parse, s, steps[0]), steps[1..], t);
    }
  }

  /** Safety, over every interleaving. The committed tables are those of `InsertDatabase` on a prefix
      of the produced messages, in order; rows and instances in them belong together. */
  lemma CommittedIsPrefix(parse: Parser, base: Db, steps: seq<Step>, t: State)
    requires Linked(base) && Leads(parse, Start(base), steps, t)
    ensures |t.log| <= |t.produced| && forall k :: 0 <= k < |t.log| ==> t.log[k].msg == t.produced[k]
    ensures t.committed == Fold(parse, base, t.log).committed
    ensures Linked(Db(t.committed, t.nextId))
  {
    hide Leads, Fold, Threads, Framing, Midway, HasRow, HasInstance;
    StartInvariant(parse, base);
    InvariantKept(parse, base, Start(base), steps, t);
    FoldLinked(parse, base, t.log);
    if t.consumer.Sections? {
      MidwayTables(t, parse(t.queue[0]), Fold(parse, base, t.log));
    }
  }

  lemma MidwayTables(s: State, msg: Message, db: Db)
    requires Midway(s, msg, db)
    ensures s.committed == db.committed && s.nextId == db.nextId + 1
  {}

  /** Every message is what one connection delivered, in full reads and a final short one. */
  lemma MessagesAreWhole(parse: Parser, base: Db, steps: seq<Step>, t: State, k: nat)
    requires Leads(parse, Start(base), steps, t) && k < |t.produced|
    ensures |t.origins| == |t.produced| && t.origins[k] < |t.conns|
    ensures var conn := t.conns[t.origins[k]]; t.produced[k] == Concat(conn.chunks) && ShortLast(conn.chunks)
    ensures forall j :: 0 <= j < |t.origins| && j != k ==> t.origins[j] != t.origins[k]
  {
    hide Leads, Threads, Flow, Data, ShortLast, Concat;
    StartInvariant(parse, base);
    InvariantKept(parse, base, Start(base), steps, t);
    assert Assembled(t.conns[t.origins[k]]);
  }

  // ----- nothing is left lying

  predicate Internal(step: Step) {
    step.Producing? || step.Consuming?
  }

  function Weight(parse: Parser, msg: string): nat {
    |AnalyticsOf(parse(msg))| + 6
  }

  function Weights(parse: Parser, queue: seq<string>): nat {
    if queue == [] then 0 else Weight(parse, queue[0]) + Weights(parse, queue[1..])
  }

  function IoRank(parse: Parser, io: Io): nat {
    match io
    case Idle => 0
    case Notified => 1
    case Pushed => 10
    case Locked(msg) => 18 + Weight(parse, msg)
    case Locking(msg) => 19 + Weight(parse, msg)
  }

  function ConsumerRank(parse: Parser, s: State): int {
    match s.consumer
    case Waiting => 0
    case Testing => if s.queue == [] then 1 else 6
    case AtLock | Woken => if s.queue == [] then 2 else 7
    case Draining => 5
    case InsertInstance => 4
    case AskId => 3
    case Sections(_, i, _, _) => 2 - i
    case Popping => if s.queue == [] then 1 else 0 - |AnalyticsOf(parse(s.queue[0]))|
  }

  /** An upper bound of how many steps the two threads take before both rest. */
  function Rank(parse: Parser, s: State): int {
    Weights(parse, s.queue) + IoRank(parse, s.io) + ConsumerRank(parse, s)
  }

  lemma {:induction false} WeightsOneMore(parse: Parser, queue: seq<string>, msg: string)
    ensures Weights(parse, queue + [msg]) == Weights(parse, queue) + Weight(parse, msg)
    decreases |queue|
  {
    hide Weight;
    if queue == [] {
      assert queue + [msg] == [msg] && [msg][1..] == [];
    } else {
      assert (queue + [msg])[1..] == queue[1..] + [msg];
      WeightsOneMore(parse, queue[1..], msg);
    }
  }

  /** The sections that have been done are sections of the message in front. */
  predicate WithinMessage(parse: Parser, s: State) {
    s.consumer.Sections? ==> s.queue != [] && s.consumer.i <= |AnalyticsOf(parse(s.queue[0]))|
  }

  lemma DataIsWithin(parse: Parser, base: Db, s: State)
    requires Data(parse, base, s)
    ensures WithinMessage(parse, s)
  {
    hide Fold, InsertSections;
  }

  lemma RankIsNat(parse: Parser, s: State)
    requires Threads(s) && WithinMessage(parse, s)
    ensures Rank(parse, s) >= 0
  {}

  lemma RankDropsProducing(parse: Parser, s: State)
    requires Threads(s) && Enabled(s, Producing)
    ensures Rank(parse, Produce(s)) < Rank(parse, s)
  {
    hide Weight, Weights, AnalyticsOf;
    if s.io.Locked? {
      WeightsOneMore(parse, s.queue, s.io.msg);
    }
  }

  lemma RankDropsConsuming(parse: Parser, s: State, reply: bool)
    requires Threads(s) && WithinMessage(parse, s) && Enabled(s, Consuming(reply))
    ensures Rank(parse, Consume(parse, s, reply)) < Rank(parse, s)
  {
    hide InsertSection, IoRank, Weights;
    if s.queue != [] {
      assert Weights(parse, s.queue) == Weight(parse, s.queue[0]) + Weights(parse, s.queue[1..]) by { FirstWeight(parse, s.queue); }
    }
  }

  lemma FirstWeight(parse: Parser, queue: seq<string>)
    requires queue != []
    ensures Weights(parse, queue) == Weight(parse, queue[0]) + Weights(parse, queue[1..])
  {}

  lemma RankDrops(parse: Parser, s: State, step: Step)
    requires Threads(s) && WithinMessage(parse, s) && Internal(step) && Enabled(s, step)
    ensures Rank(parse, Apply(parse, s, step)) < Rank(parse, s)
  {
    hide Threads, WithinMessage, Rank, Consume, Produce;
    match step
    case Producing => RankDropsProducing(parse, s);
    case Consuming(reply) => RankDropsConsuming(parse, s, reply);
  }

  /** With no further reads and wake-ups the two threads come to rest, however their steps interleave. */
  lemma {:induction false} ComesToRest(parse: Parser, base: Db, s: State, steps: seq<Step>, t: State)
    requires Invariant(parse, base, s) && Leads(parse, s, steps, t)
    requires forall k :: 0 <= k < |steps| ==> Internal(steps[k])
    ensures |steps| + Rank(parse, t) <= Rank(parse, s) && Rank(parse, t) >= 0
    decreases |steps|
  {
    hide Threads, Framing, Flow, Data, Apply, Enabled, Rank, WithinMessage;
    DataIsWithin(parse, base, s);
    if steps == [] {
      RankIsNat(parse, s);
    } else {
      RankDrops(parse, s, steps[0]);
      ThreadsKept(parse, s, steps[0]);
      FramingKept(parse, s, steps[0]);
      FlowKept(parse, s, steps[0]);
      DataKept(parse, base, s, steps[0]);
      ComesToRest(parse, base, Apply(parse, s, steps[0]), steps[1..], t);
    }
  }

  /** At rest, every message that was produced has gone through the database, unless consuming was
      stopped: no notification is lost and no thread is stuck on the mutex. */
  lemma RestIsDrained(parse: Parser, base: Db, s: State)
    requires Invariant(parse, base, s)
    requires forall step :: Internal(step) ==> !Enabled(s, step)
    ensures s.io.Idle? && s.consumer.Waiting? && s.lock.Free?
    ensures s.queue == [] || s.done
    ensures s.queue == [] ==> |s.log| == |s.produced| && Db(s.committed, s.nextId) == Fold(parse, base, s.log)
  {
    hide Framing, Fold;
    assert !Enabled(s, Producing) && !Enabled(s, Consuming(true));
  }

  // ----- stopping

  /** The consumer is outside its inner loop. */
  predicate Outside(consumer: Consumer) {
    consumer.AtLock? || consumer.Testing? || consumer.Waiting? || consumer.Woken?
  }

  /** The messages the consumer will still take without looking at `done`: inside its inner loop,
      those in the queue, the one that has just been inserted left out. */
  function Remaining(s: State): int {
    if Outside(s.consumer) then 0 else |s.queue| - if s.consumer.Popping? then 1 else 0
  }

  /** After `StopConsuming` exactly the remaining messages still go through. Once the consumer is
      outside its inner loop it never comes in again: it does not end, and nothing is stored any more. */
  lemma {:induction false} StoppedForGood(parse: Parser, s: State, steps: seq<Step>, t: State)
    requires s.done && Threads(s) && Leads(parse, s, steps, t)
    ensures t.done && Threads(t) && s.log <= t.log && |t.log| + Remaining(t) == |s.log| + Remaining(s)
    ensures Outside(s.consumer) ==> Outside(t.consumer) && t.log == s.log && t.committed == s.committed
    decreases |steps|
  {
    hide Threads, Apply, Remaining, Enabled;
    if steps != [] {
      ThreadsKept(parse, s, steps[0]);
      StoppedStep(parse, s, steps[0]);
      StoppedForGood(parse, Apply(parse, s, steps[0]), steps[1..], t);
    }
  }

  lemma StoppedStep(parse: Parser, s: State, step: Step)
    requires s.done && Threads(s) && Enabled(s, step)
    ensures var t := Apply(parse, s, step);
            && t.done && s.log <= t.log && |t.log| + Remaining(t) == |s.log| + Remaining(s)
            && (Outside(s.consumer) ==> Outside(t.consumer) && t.log == s.log && t.committed == s.committed)
  {
    hide Consume;
    if step.Consuming? {
      StoppedConsumes(parse, s, step.reply);
    }
  }

  lemma StoppedConsumes(parse: Parser, s: State, reply: bool)
    requires s.done && Threads(s) && Enabled(s, Consuming(reply))
    ensures var t := Consume(parse, s, reply);
            && t.done && s.log <= t.log && |t.log| + Remaining(t) == |s.log| + Remaining(s)
            && (Outside(s.consumer) ==> Outside(t.consumer) && t.log == s.log && t.committed == s.committed)
  {
    hide Sent, Asked, SectionDone, AnalyticsOf;
    if Inserting(s.consumer) {
      hide Consume;
      ConsumeKeepsRest(parse, s, reply);
    }
  }

  /** A stopped consumer that has come to rest has taken all that was in the queue when it was stopped
      inside its inner loop, and nothing of it when it was stopped outside. */
  lemma StoppedAtRest(parse: Parser, s: State, steps: seq<Step>, t: State)
    requires s.done && Threads(s) && Leads(parse, s, steps, t) && t.consumer.Waiting?
    ensures |t.log| == |s.log| + if Outside(s.consumer) then 0 else |s.queue| - if s.consumer.Popping? then 1 else 0
  {
    hide Threads, Leads;
    StoppedForGood(parse, s, steps, t);
  }
}
