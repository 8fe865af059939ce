/** End to end: what reaches the peer of an HTTP connection, against the answers to the request
    stream the peer has sent, over every run of reads, partial writes and hang-ups. */
module ReplyStream {
  import opened Text
  import opened HttpContext
  import opened Segmentation
  import opened ConnectionSpec
  import opened HttpServer
  import opened RequestStream
  import opened RequestText

  /** The texts of the replies, in order, up to and including the first that closes. */
  function Texts(rs: seq<Reply>): string {
    if rs == [] then "" else rs[0].text + if rs[0].close then "" else Texts(rs[1..])
  }

  predicate Closes(rs: seq<Reply>) {
    rs != [] && (rs[0].close || Closes(rs[1..]))
  }

  lemma {:induction false} TextsSplit(a: seq<Reply>, b: seq<Reply>)
    ensures Texts(a + b) == Texts(a) + if Closes(a) then "" else Texts(b)
    ensures Closes(a + b) == (Closes(a) || Closes(b))
  {
    if a == [] {
      assert a + b == b;
    } else {
      assert (a + b)[1..] == a[1..] + b;
      TextsSplit(a[1..], b);
      if !a[0].close {
        Assoc(a[0].text, Texts(a[1..]), if Closes(a[1..]) then "" else Texts(b));
      }
    }
  }

  lemma {:induction false} RepliesToSplit(f: Option<Callback>, a: seq<Request>, b: seq<Request>)
    ensures RepliesTo(f, a + b) == RepliesTo(f, a) + RepliesTo(f, b)
  {
    if a == [] {
      assert a + b == b;
    } else {
      assert (a + b)[1..] == a[1..] + b;
      RepliesToSplit(f, a[1..], b);
    }
  }

  // ----- one connection with its parser -----

  datatype Service = Service(reader: Reader, conn: Conn)

  /** An established connection before its first byte. */
  const ESTABLISHED := Service(FRESH, Established(NEW_CONN))

  datatype Event =
    | Input(chunk: string, ws: seq<WriteResult>)   // handleRead delivers a chunk to onMessage
    | Output(w: WriteResult)                       // handleWrite
    | Hangup                                       // handleClose

  function Step(f: Option<Callback>, s: Service, e: Event): Service {
    match e
    case Input(chunk, ws) =>
      if !s.conn.Open() then s
      else
        var d := Drain(s.reader.ctx, s.reader.buf + chunk);
        Service(OnData(s.reader, chunk), RepliedAll(s.conn, RepliesTo(f, d.requests), ws))
    case Output(w) => s.(conn := Written(s.conn, w))
    case Hangup => if s.conn.Open() then s.(conn := Closed(s.conn)) else s
  }

  function Run(f: Option<Callback>, s: Service, events: seq<Event>): Service
    decreases |events|
  {
    if events == [] then s else Run(f, Step(f, s, events[0]), events[1..])
  }

  /** The chunks the connection has read. */
  function Received(f: Option<Callback>, s: Service, events: seq<Event>): seq<string>
    decreases |events|
  {
    if events == [] then []
    else (if events[0].Input? && s.conn.Open() then [events[0].chunk] else [])
         + Received(f, Step(f, s, events[0]), events[1..])
  }

  /** The connection has been given the answers `replies`; `closes` when the last of them closes. */
  ghost predicate Given(c: Conn, replies: string, closes: bool) {
    && ConnectionSpec.Inv(c)
    && c.state != Connecting
    && c.lateWrites == 0
    && (if c.state == Disconnected then c.accepted <= replies
        else c.accepted == replies && (c.state == Disconnecting <==> closes))
  }

  lemma SentGiven(c: Conn, replies: string, m: string, w: WriteResult)
    requires Given(c, replies, false)
    ensures Given(Sent(c, m, w), replies + m, false)
  {
    ConnectionSpec.StepKeepsInv(c, Send(m, w));
    StepLate(c, Send(m, w));
    var sent := Sent(c, m, w);
    if c.state == Connected && sent.state == Disconnected { assert sent.accepted == c.accepted; }
  }

  lemma ShutDownGiven(c: Conn, replies: string)
    requires Given(c, replies, false)
    ensures Given(ShutDown(c), replies, true)
  {
    ConnectionSpec.StepKeepsInv(c, Shutdown);
    StepLate(c, Shutdown);
  }

  lemma WrittenGiven(c: Conn, replies: string, closes: bool, w: WriteResult)
    requires Given(c, replies, closes)
    ensures Given(Written(c, w), replies, closes)
  {
    ConnectionSpec.StepKeepsInv(c, Writable(w));
    StepLate(c, Writable(w));
  }

  lemma RepliedGiven(c: Conn, replies: string, closes: bool, r: Reply, w: WriteResult)
    requires Given(c, replies, closes)
    ensures Given(Replied(c, r, w), if closes then replies else replies + r.text, closes || r.close)
  {
    if !closes {
      SentGiven(c, replies, r.text, w);
      if r.close { ShutDownGiven(Sent(c, r.text, w), replies + r.text); }
    }
  }

  lemma {:induction false} RepliedAllGiven(c: Conn, done: seq<Reply>, rs: seq<Reply>, ws: seq<WriteResult>)
    requires Given(c, Texts(done), Closes(done))
    ensures Given(RepliedAll(c, rs, ws), Texts(done + rs), Closes(done + rs))
    decreases |rs|
  {
    if rs == [] {
      assert done + rs == done;
    } else {
      var done' := done + [rs[0]];
      assert Given(Replied(c, rs[0], First(ws)), Texts(done'), Closes(done')) by {
        RepliedGiven(c, Texts(done), Closes(done), rs[0], First(ws));
        OneMore(done, rs[0]);
      }
      RepliedAllGiven(Replied(c, rs[0], First(ws)), done', rs[1..], Rest(ws));
      assert done' + rs[1..] == done + rs;
    }
  }

  lemma OneMore(done: seq<Reply>, r: Reply)
    ensures Texts(done + [r]) == if Closes(done) then Texts(done) else Texts(done) + r.text
    ensures Closes(done + [r]) == (Closes(done) || r.close)
  {
    TextsSplit(done, [r]);
    assert Texts([r]) == r.text + "" == r.text;
    assert Texts(done) + "" == Texts(done);
  }

  lemma InputGiven(f: Option<Callback>, c: Conn, done: seq<Request>, reqs: seq<Request>, ws: seq<WriteResult>)
    requires Given(c, Texts(RepliesTo(f, done)), Closes(RepliesTo(f, done)))
    ensures Given(RepliedAll(c, RepliesTo(f, reqs), ws),
                  Texts(RepliesTo(f, done + reqs)), Closes(RepliesTo(f, done + reqs)))
  {
    RepliesToSplit(f, done, reqs);
    RepliedAllGiven(c, RepliesTo(f, done), RepliesTo(f, reqs), ws);
  }

  lemma ClosedGiven(c: Conn, replies: string, closes: bool)
    requires Given(c, replies, closes) && c.Open()
    ensures Given(Closed(c), replies, closes)
  {
    ConnectionSpec.StepKeepsInv(c, Close);
  }

  lemma GivenDrained(c: Conn, replies: string, closes: bool)
    requires Given(c, replies, closes) && c.Open() && c.out == ""
    ensures c.wire == replies && c.halfClosed == (if closes then [replies] else []) && c.lateWrites == 0
  {
    assert c.wire + "" == c.wire;
  }

  lemma GivenWire(c: Conn, replies: string, closes: bool)
    requires Given(c, replies, closes)
    ensures c.wire <= replies
  {
    assert c.wire <= c.wire + c.out == c.accepted;
  }

  ghost predicate Inv(f: Option<Callback>, s: Service) {
    var rs := RepliesTo(f, s.reader.delivered);
    Given(s.conn, Texts(rs), Closes(rs))
  }

  lemma StepKeepsInv(f: Option<Callback>, s: Service, e: Event)
    requires Inv(f, s)
    ensures Inv(f, Step(f, s, e))
  {
    match e
    case Input(chunk, ws) =>
      if s.conn.Open() {
        InputGiven(f, s.conn, s.reader.delivered, Drain(s.reader.ctx, s.reader.buf + chunk).requests, ws);
      }
    case Output(w) =>
      WrittenGiven(s.conn, Texts(RepliesTo(f, s.reader.delivered)), Closes(RepliesTo(f, s.reader.delivered)), w);
    case Hangup =>
      if s.conn.Open() { ClosedGiven(s.conn, Texts(RepliesTo(f, s.reader.delivered)), Closes(RepliesTo(f, s.reader.delivered))); }
  }

  lemma {:induction false} RunKeepsInv(f: Option<Callback>, s: Service, events: seq<Event>)
    requires Inv(f, s)
    ensures Inv(f, Run(f, s, events))
    decreases |events|
  {
    if events == [] {
    } else {
      StepKeepsInv(f, s, events[0]);
      RunKeepsInv(f, Step(f, s, events[0]), events[1..]);
    }
  }

  lemma {:induction false} RunFeeds(f: Option<Callback>, s: Service, events: seq<Event>)
    ensures Run(f, s, events).reader == Feed(s.reader, Received(f, s, events))
    decreases |events|
  {
    if events == [] {
    } else {
      var e, next := events[0], Step(f, s, events[0]);
      var rest := Received(f, next, events[1..]);
      RunFeeds(f, next, events[1..]);
      if e.Input? && s.conn.Open() {
        assert ([e.chunk] + rest)[1..] == rest;
        assert Feed(s.reader, [e.chunk] + rest) == Feed(OnData(s.reader, e.chunk), rest);
      } else {
        assert [] + rest == rest;
      }
    }
  }

  lemma TextsMonotone(f: Option<Callback>, a: seq<Request>, b: seq<Request>)
    requires a <= b
    ensures Texts(RepliesTo(f, a)) <= Texts(RepliesTo(f, b))
  {
    assert b == a + b[|a|..];
    RepliesToSplit(f, a, b[|a|..]);
    TextsSplit(RepliesTo(f, a), RepliesTo(f, b[|a|..]));
  }

  /** In every run, what the peer has received is a prefix of the answers, up to and including the
      first that closes, to the requests the reference finds in what the peer has sent. */
  lemma WireIsPrefixOfReplies(f: Option<Callback>, events: seq<Event>)
    ensures var s := Run(f, ESTABLISHED, events);
            var reqs := Reference(Concat(Received(f, ESTABLISHED, events))).delivered;
            s.conn.wire <= Texts(RepliesTo(f, reqs))
  {
    var s := Run(f, ESTABLISHED, events);
    var chunks := Received(f, ESTABLISHED, events);
    RunKeepsInv(f, ESTABLISHED, events);
    RunFeeds(f, ESTABLISHED, events);
    DeliveredIsPrefix(chunks);
    var rs := RepliesTo(f, s.reader.delivered);
    GivenWire(s.conn, Texts(rs), Closes(rs));
    TextsMonotone(f, s.reader.delivered, Reference(Concat(chunks)).delivered);
  }

  /** A run that has neither failed nor been cut off has answered exactly: once the output buffer is
      empty, the peer has every answer up to and including the first that closes; after a closing
      answer the write side is shut, once, and behind the last byte. */
  lemma DrainedRepliesExactly(f: Option<Callback>, events: seq<Event>)
    requires Run(f, ESTABLISHED, events).conn.Open()
    requires Run(f, ESTABLISHED, events).conn.out == ""
    requires !Stalls(REF_START, Lines(Concat(Received(f, ESTABLISHED, events))))
    ensures var s := Run(f, ESTABLISHED, events);
            var rs := RepliesTo(f, Reference(Concat(Received(f, ESTABLISHED, events))).delivered);
            && s.conn.wire == Texts(rs)
            && s.conn.halfClosed == (if Closes(rs) then [Texts(rs)] else [])
            && s.conn.lateWrites == 0
  {
    var s := Run(f, ESTABLISHED, events);
    RunKeepsInv(f, ESTABLISHED, events);
    RunFeeds(f, ESTABLISHED, events);
    SegmentationIndependent(Received(f, ESTABLISHED, events));
    var rs := RepliesTo(f, s.reader.delivered);
    GivenDrained(s.conn, Texts(rs), Closes(rs));
  }

  /** From end to end: a client that has pipelined some requests, however they were cut into reads, holds
      the answers to them, in order, up to and including the first that closes. */
  lemma PipelineAnswered(f: Option<Callback>, hs: seq<Head>, events: seq<Event>)
    requires forall i :: 0 <= i < |hs| ==> Printable(hs[i])
    requires Concat(Received(f, ESTABLISHED, events)) == PrintAll(hs)
    requires Run(f, ESTABLISHED, events).conn.Open() && Run(f, ESTABLISHED, events).conn.out == ""
    ensures var c, rs := Run(f, ESTABLISHED, events).conn, RepliesTo(f, Meanings(hs));
            c.wire == Texts(rs) && c.halfClosed == if Closes(rs) then [Texts(rs)] else []
  {
    ReferenceOfPrinted(hs);
    DrainedRepliesExactly(f, events);
  }

  /** Nothing that follows a refused request in the stream is answered. */
  lemma {:induction false} RefusedIsLast(f: Option<Callback>, reqs: seq<Request>, i: nat)
    requires i < |reqs| && Refused(reqs[i])
    ensures Texts(RepliesTo(f, reqs)) == Texts(RepliesTo(f, reqs[..i + 1]))
  {
    var now, rest := reqs[..i + 1], reqs[i + 1..];
    assert now[..i] + [reqs[i]] == now && reqs == now + rest;
    RepliesToSplit(f, now, rest);
    RepliesToSplit(f, now[..i], [reqs[i]]);
    RefusedReply(f, reqs[i]);
    var last := RepliesTo(f, [reqs[i]]);
    assert last == [ReplyTo(f, reqs[i])] + RepliesTo(f, []) && last[0].close;
    TextsSplit(RepliesTo(f, now[..i]), last);
    TextsSplit(RepliesTo(f, now), RepliesTo(f, rest));
    assert Texts(RepliesTo(f, now)) + "" == Texts(RepliesTo(f, now));
  }
}
