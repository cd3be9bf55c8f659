/** The two objects behind the server's threads: a connection reassembles a message from reads into a
    fixed buffer (`ServerBA/ServerConnection.cpp`), and the queue between the threads is drained into
    the database (`ServerBA/ProducerConsumer.cpp`). */
module ServerObjects {
  import opened Database
  import I = InsertDatabase
  import opened Server

  // ----- what a connection makes of a series of reads

  datatype Received = Received(recv: string, framed: bool, used: nat)

  /** The reads of a connection, up to and with the one that frames the message. */
  function Feed(recv: string, chunks: seq<string>): (r: Received)
    ensures r.used <= |chunks|
    decreases |chunks|
  {
    if chunks == [] then Received(recv, false, 0)
    else
      var (recv', more) := HandleRead(recv, chunks[0]);
      if !more then Received(recv', true, 1)
      else
        var r := Feed(recv', chunks[1..]);
        r.(used := r.used + 1)
  }

  lemma ConcatLast(chunks: seq<string>, last: string)
    ensures Concat(chunks + [last]) == Concat(chunks) + last
  {
    assert (chunks + [last])[..|chunks|] == chunks;
  }

  lemma {:induction false} ConcatFirst(chunks: seq<string>)
    requires chunks != []
    ensures Concat(chunks) == chunks[0] + Concat(chunks[1..])
    decreases |chunks|
  {
    hide Concat;
    var front, last := chunks[..|chunks| - 1], chunks[|chunks| - 1];
    ConcatLast(front, last);
    assert chunks == front + [last];
    if front == [] {
      assert chunks[1..] == [];
      NothingConcat("");
      NothingConcat(chunks[0]);
    } else {
      ConcatFirst(front);
      ConcatLast(front[1..], last);
      assert chunks[1..] == front[1..] + [last];
      assert front[0] + Concat(front[1..]) + last == front[0] + (Concat(front[1..]) + last);
    }
  }

  lemma {:induction false} FeedIsConcat(recv: string, chunks: seq<string>)
    requires forall k :: 0 <= k < |chunks| ==> |chunks[k]| <= BUF_SIZE
    ensures var r := Feed(recv, chunks);
            && r.recv == recv + Concat(chunks[..r.used])
            && (r.framed ==> ShortLast(chunks[..r.used]))
            && (!r.framed ==> r.used == |chunks| && forall k :: 0 <= k < |chunks| ==> |chunks[k]| == BUF_SIZE)
    decreases |chunks|
  {
    hide Concat;
    assert chunks[..0] == [];
    if chunks == [] {
      NothingConcat(recv);
    } else {
      var r := Feed(recv, chunks);
      var front := chunks[..r.used];
      ConcatFirst(front);
      if |chunks[0]| == BUF_SIZE {
        FeedIsConcat(recv + chunks[0], chunks[1..]);
        assert front[1..] == chunks[1..][..r.used - 1];
      } else {
        assert front[1..] == [];
        NothingConcat(recv + chunks[0]);
      }
    }
  }

  lemma NothingConcat(recv: string)
    ensures Concat([]) == "" && recv + Concat([]) == recv
  {}

  /** The reads deliver the whole text as the message exactly when all are full but the last. */
  lemma WholeIffShortLast(chunks: seq<string>)
    requires forall k :: 0 <= k < |chunks| ==> 0 < |chunks[k]| <= BUF_SIZE
    ensures var r := Feed("", chunks);
            r.framed && r.recv == Concat(chunks) <==> ShortLast(chunks)
  {
    hide Feed, Concat;
    FeedIsConcat("", chunks);
    var r := Feed("", chunks);
    assert chunks[..|chunks|] == chunks;
    if r.framed && r.used < |chunks| {
      ConcatGrows(chunks, r.used);
      assert chunks[..r.used][r.used - 1] == chunks[r.used - 1];
    }
  }

  lemma {:induction false} ConcatGrows(chunks: seq<string>, n: nat)
    requires n < |chunks| && forall k :: 0 <= k < |chunks| ==> 0 < |chunks[k]|
    ensures |Concat(chunks[..n])| < |Concat(chunks)|
    decreases |chunks|
  {
    var front := chunks[..|chunks| - 1];
    if n < |front| {
      ConcatGrows(front, n);
      assert front[..n] == chunks[..n];
    }
  }

  /** The reads of a text when each one takes as much as fits the buffer. */
  function FullReads(text: string): (chunks: seq<string>)
    ensures forall k :: 0 <= k < |chunks| ==> 0 < |chunks[k]| <= BUF_SIZE
    ensures forall k :: 0 <= k < |chunks| - 1 ==> |chunks[k]| == BUF_SIZE
    ensures chunks == [] <==> text == ""
  {
    if |text| <= BUF_SIZE then (if text == "" then [] else [text])
    else [text[..BUF_SIZE]] + FullReads(text[BUF_SIZE..])
  }

  lemma {:induction false} FullReadsConcat(text: string)
    ensures var chunks := FullReads(text);
            && Concat(chunks) == text
            && (text != "" ==> (|chunks[|chunks| - 1]| == BUF_SIZE <==> |text| % BUF_SIZE == 0))
  {
    hide Concat;
    if |text| <= BUF_SIZE {
      NothingConcat("");
      if text != "" {
        ConcatFirst([text]);
        NothingConcat(text);
        assert [text][1..] == [];
      }
    } else {
      var chunks := FullReads(text);
      FullReadsConcat(text[BUF_SIZE..]);
      ConcatFirst(chunks);
      assert chunks[1..] == FullReads(text[BUF_SIZE..]);
      assert text[..BUF_SIZE] + text[BUF_SIZE..] == text;
    }
  }

  lemma FedWhole(chunks: seq<string>)
    requires chunks != [] && forall k :: 0 <= k < |chunks| ==> |chunks[k]| <= BUF_SIZE
    requires forall k :: 0 <= k < |chunks| - 1 ==> |chunks[k]| == BUF_SIZE
    ensures var r := Feed("", chunks);
            r.recv == Concat(chunks) && (r.framed <==> |chunks[|chunks| - 1]| != BUF_SIZE)
  {
    hide Feed, Concat;
    FeedIsConcat("", chunks);
    var r := Feed("", chunks);
    if r.framed {
      assert chunks[..r.used][r.used - 1] == chunks[r.used - 1];
    }
    assert r.used == |chunks|;
    assert chunks[..|chunks|] == chunks;
  }

  /** With full reads a text becomes a message, whole, exactly when its length is not a multiple of
      the buffer's; otherwise the connection goes on waiting. */
  lemma FramedIffNotMultiple(text: string)
    requires text != ""
    ensures var r := Feed("", FullReads(text));
            && (r.framed <==> |text| % 100 != 0)
            && r.recv == text
  {
    hide Feed, FullReads, Concat;
    FullReadsConcat(text);
    FedWhole(FullReads(text));
  }

  /** A connection of the server that has delivered a text in full reads has framed it exactly in that
      case. */
  lemma FramedInRun(conn: Conn, text: string)
    requires Assembled(conn) && text != "" && conn.chunks == FullReads(text)
    ensures conn.recv == text && (conn.phase.Framed? <==> |text| % 100 != 0)
  {
    hide Concat, FullReads;
    FullReadsConcat(text);
  }

  // ----- the objects

  class ProducerConsumer {
    const db: I.Connection
    var queue: seq<string>
    var done: bool

    constructor (db: I.Connection)
      ensures this.db == db && queue == [] && !done
    {
      this.db := db;
      queue, done := [], false;
    }

    method Produce(str: string)
      modifies this`queue
      ensures queue == old(queue) + [str]
    {
      queue := queue + [str];
    }

    method StopConsuming()
      modifies this`done
      ensures done
    {
      done := true;
    }

    /** The inner loop of `Consume`, which runs with the mutex held; `replies[k]` is what the database
        answers while message `k` goes through. `done` is not looked at. */
    method Drain(parse: Parser, replies: seq<Replies>)
      requires |replies| == |queue| && db.Idle()
      modifies this`queue, db
      ensures queue == [] && db.Idle()
      ensures db.View() == Fold(parse, old(db.View()), Log(old(queue), replies))
    {
      hide Fold, Insert;
      ghost var log := Log(queue, replies);
      var i := 0;
      FoldNothing(parse, db.View());
      assert log[..0] == [];
      while queue != []
        invariant i <= |log| && queue == old(queue)[i..] && db.Idle()
        invariant db.View() == Fold(parse, old(db.View()), log[..i])
        decreases |queue|
      {
        var front := queue[0];
        var inserts := db.Insert(parse(front), replies[i]);
        queue := queue[1..];
        FoldOneMore(parse, old(db.View()), log[..i], log[i]);
        assert log[..i + 1] == log[..i] + [log[i]];
        i := i + 1;
      }
      assert log[..i] == log;
    }
  }

  lemma FoldNothing(parse: Parser, base: Db)
    ensures Fold(parse, base, []) == base
  {}

  function Log(msgs: seq<string>, replies: seq<Replies>): (log: seq<Entry>)
    requires |replies| == |msgs|
    ensures |log| == |msgs| && forall k :: 0 <= k < |msgs| ==> log[k] == Entry(msgs[k], replies[k])
  {
    seq(|msgs|, k requires 0 <= k < |msgs| => Entry(msgs[k], replies[k]))
  }

  class ServerConnection {
    const data: array<char>
    const pc: ProducerConsumer
    var recv: string

    constructor (pc: ProducerConsumer)
      ensures this.pc == pc && recv == "" && fresh(data) && data.Length == BUF_SIZE
    {
      this.pc := pc;
      data := new char[BUF_SIZE](_ => 0 as char);
      recv := "";
    }

    /** A read has put `n` characters into the buffer, or has failed. Says whether to read again. */
    method HandleRead(error: bool, n: nat) returns (again: bool)
      requires data.Length == BUF_SIZE && n <= BUF_SIZE
      modifies this`recv, pc`queue
      ensures error ==> !again && recv == old(recv) && pc.queue == old(pc.queue)
      ensures !error ==> (recv, again) == Server.HandleRead(old(recv), old(data[..n]))
      ensures !error && again ==> pc.queue == old(pc.queue)
      ensures !error && !again ==> pc.queue == old(pc.queue) + [old(recv) + old(data[..n])]
    {
      again := false;
      if !error {
        recv := recv + data[..n];
        if n == BUF_SIZE {
          again := true;
        } else {
          pc.Produce(recv);
        }
      }
    }
  }
}
