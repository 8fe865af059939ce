/** Every run of a session against the reference that sees the peer's whole stream. */
module SessionRuns {
  import opened Text
  import opened HttpParser
  import opened SessionSpec

  /** The head of the request has been accepted, so a body of the announced length will be. */
  ghost predicate Accepted(req: Request, config: Config) {
    && req.contentLength <= config.maxBodyBytes
    && (req.meth == "POST" && req.contentLength > 0 ==> IsAllowedContentType(req.contentType))
  }

  /** Only the last exchange can close, and then no further head is read. */
  ghost predicate CloseIsLast(s: Session) {
    && (forall i :: 0 <= i < |s.exchanges| - 1 ==> !s.exchanges[i].close)
    && (s.phase == ReadingHead || s.phase.ReadingBody? ==>
          forall i :: 0 <= i < |s.exchanges| ==> !s.exchanges[i].close)
    && (s.phase.Writing? ==>
          s.exchanges != [] && s.exchanges[|s.exchanges| - 1].close == s.phase.close)
  }

  /** Every request that reached the application has a body of the announced length. */
  ghost predicate BodiesExact(s: Session) {
    forall i :: 0 <= i < |s.exchanges| ==> BodyExact(s.exchanges[i])
  }

  predicate BodyExact(e: Exchange) {
    e.handled ==> |e.request.body| == e.request.contentLength
  }

  /** What is still to come, according to the reference, from here. */
  ghost predicate OnCourse(app: App, config: Config, s: Session, all: seq<Exchange>) {
    match s.phase
    case ReadingHead => s.exchanges + Reference(app, config, s.buffer + s.unread) == all
    case ReadingBody(req, body) => s.exchanges + ReferenceBody(app, config, req, body + s.unread) == all
    case Writing(close) =>
      if close then s.exchanges == all else s.exchanges + Reference(app, config, s.buffer + s.unread) == all
    case Closed => s.exchanges <= all
  }

  ghost predicate Shape(config: Config, s: Session) {
    && |s.buffer| <= MaxBuffer(config)
    && (s.phase.ReadingBody? ==>
          && s.buffer == ""
          && |s.phase.body| < s.phase.request.contentLength
          && Accepted(s.phase.request, config))
  }

  ghost predicate Inv(app: App, config: Config, stream: string, s: Session) {
    && s.consumed + s.buffer + s.unread == stream
    && Shape(config, s)
    && CloseIsLast(s) && BodiesExact(s)
    && OnCourse(app, config, s, Reference(app, config, stream))
  }

  lemma HeadAccepted(raw: string, config: Config)
    requires ParseHead(raw, config).status == Ok
    ensures Accepted(ParseHead(raw, config).request, config)
  {
    ParsedAgrees(raw, config);
    PostTypeAllowed(raw, config);
  }

  /** handleRequest on a complete body answers; its error branch is not taken. */
  lemma HandleRequestOnCourse(app: App, config: Config, s: Session, req: Request, body: string,
                              all: seq<Exchange>)
    requires Accepted(req, config) && |body| == req.contentLength
    requires s.exchanges + ReferenceBody(app, config, req, body + (s.buffer + s.unread)) == all
    ensures var t := HandleRequest(app, config, s, req, body);
            t.phase.Writing? && OnCourse(app, config, t, all)
    ensures HandleRequest(app, config, s, req, body) ==
            Respond(app, s, req.(body := body), true, Answer(app, req.(body := body)))
  {
    var data := body + (s.buffer + s.unread);
    assert data[..req.contentLength] == body && data[req.contentLength..] == s.buffer + s.unread;
    assert WithBody(req, body, config) == (Ok, req.(body := body));
    var full := req.(body := body);
    var e := Exchanged(app, full, true, Answer(app, full));
    Assoc(s.exchanges, [e], Reference(app, config, s.buffer + s.unread));
  }

  lemma ErrorOnCourse(app: App, config: Config, s: Session, req: Request, status: Status, message: string,
                      all: seq<Exchange>)
    requires s.exchanges + [ErrorExchange(app, req, status, message)] == all
    ensures var t := Respond(app, s, req, false, ParseErrorResponse(app, status, message));
            t.phase == Writing(true) && OnCourse(app, config, t, all)
  {}

  /** handleHead: whatever has arrived behind the head, the session goes on as the reference does. */
  lemma HandleHeadOnCourse(app: App, config: Config, s: Session, n: nat, all: seq<Exchange>)
    requires s.phase == ReadingHead && |s.buffer| <= MaxBuffer(config) && HeadLength(s.buffer) == Some(n)
    requires s.exchanges + Reference(app, config, s.buffer + s.unread) == all
    ensures OnCourse(app, config, HandleHead(app, config, s, n), all)
    ensures Shape(config, HandleHead(app, config, s, n))
  {
    var stream := s.buffer + s.unread;
    HeadLengthStable(s.buffer, s.unread);
    assert stream[..n] == s.buffer[..n] && stream[n..] == s.buffer[n..] + s.unread;
    if n > config.maxHeaderBytes {
      ErrorOnCourse(app, config, s, EMPTY, HeaderTooLarge, "header limit", all);
    } else {
      var parsed := ParseHead(s.buffer[..n], config);
      var s1 := Consume(s, n);
      if parsed.status != Ok {
        ErrorOnCourse(app, config, s1, parsed.request, parsed.status, parsed.message, all);
      } else {
        HeadAccepted(s.buffer[..n], config);
        BodyAfterHead(app, config, s1, parsed.request, all);
      }
    }
  }

  lemma BodyAfterHead(app: App, config: Config, s: Session, req: Request, all: seq<Exchange>)
    requires s.phase == ReadingHead && |s.buffer| <= MaxBuffer(config) && Accepted(req, config)
    requires s.exchanges + ReferenceBody(app, config, req, s.buffer + s.unread) == all
    ensures OnCourse(app, config, TakeBody(app, config, s, req), all)
    ensures Shape(config, TakeBody(app, config, s, req))
  {
    if |s.buffer| < req.contentLength {
      assert s.buffer[..|s.buffer|] == s.buffer && s.buffer[|s.buffer|..] == "";
    } else {
      var body, rest := s.buffer[..req.contentLength], s.buffer[req.contentLength..];
      assert s.buffer + s.unread == body + (rest + s.unread);
      HandleRequestOnCourse(app, config, Consume(s, req.contentLength), req, body, all);
    }
  }

  /** The body read asks for no more than the buffer holds, so it gets all it asks for. */
  lemma BodyFits(config: Config, s: Session)
    requires Shape(config, s) && s.phase.ReadingBody?
    ensures BodyTake(config, s) == s.phase.request.contentLength - |s.phase.body|
  {}

  lemma BodyReadOnCourse(app: App, config: Config, s: Session, all: seq<Exchange>)
    requires Shape(config, s) && Enabled(config, s, BodyRead) && OnCourse(app, config, s, all)
    ensures OnCourse(app, config, Apply(app, config, s, BodyRead), all)
    ensures Shape(config, Apply(app, config, s, BodyRead))
  {
    var n := BodyTake(config, s);
    BodyFits(config, s);
    var got := s.unread[..n];
    assert s.buffer + got == got && got[..n] == got && got[n..] == "";
    var s' := s.(buffer := s.buffer + got, unread := s.unread[n..]);
    assert s.phase.body + s.unread == (s.phase.body + got) + ("" + s.unread[n..]);
    HandleRequestOnCourse(app, config, Consume(s', n), s.phase.request, s.phase.body + got, all);
  }

  // ----- conservation and order -----

  lemma ConsumeConserves(s: Session, n: nat)
    requires n <= |s.buffer|
    ensures var t := Consume(s, n); t.consumed + t.buffer + t.unread == s.consumed + s.buffer + s.unread
  {
    assert s.buffer == s.buffer[..n] + s.buffer[n..];
    assert s.consumed + s.buffer[..n] + s.buffer[n..] == s.consumed + s.buffer;
  }

  lemma HandleHeadConserves(app: App, config: Config, s: Session, n: nat)
    requires n <= |s.buffer|
    ensures var t := HandleHead(app, config, s, n);
            t.consumed + t.buffer + t.unread == s.consumed + s.buffer + s.unread
  {
    if n <= config.maxHeaderBytes {
      ConsumeConserves(s, n);
      var parsed := ParseHead(s.buffer[..n], config);
      if parsed.status == Ok {
        var s1 := Consume(s, n);
        var len := parsed.request.contentLength;
        ConsumeConserves(s1, if |s1.buffer| < len then |s1.buffer| else len);
      }
    }
  }

  lemma ApplyConserves(app: App, config: Config, s: Session, e: Event)
    requires Enabled(config, s, e)
    ensures var t := Apply(app, config, s, e);
            t.consumed + t.buffer + t.unread == s.consumed + s.buffer + s.unread
  {
    match e
    case HeadRead(k) =>
      var s' := s.(buffer := s.buffer + s.unread[..k], unread := s.unread[k..]);
      MoveConserves(s, k);
      HandleHeadConserves(app, config, s', HeadLength(s'.buffer).value);
    case BodyRead =>
      var n := BodyTake(config, s);
      MoveConserves(s, n);
      ConsumeConserves(s.(buffer := s.buffer + s.unread[..n], unread := s.unread[n..]), n);
    case _ =>
  }

  lemma MoveConserves(s: Session, k: nat)
    requires k <= |s.unread|
    ensures s.consumed + (s.buffer + s.unread[..k]) + s.unread[k..] == s.consumed + s.buffer + s.unread
  {
    assert s.unread[..k] + s.unread[k..] == s.unread;
    assert s.consumed + (s.buffer + s.unread[..k]) + s.unread[k..] == s.consumed + s.buffer + (s.unread[..k] + s.unread[k..]);
  }

  /** One more exchange, now being written. */
  ghost predicate OneMore(s: Session, t: Session) {
    && t.phase.Writing? && |t.exchanges| > 0
    && var last := t.exchanges[|t.exchanges| - 1];
       t.exchanges == s.exchanges + [last] && last.close == t.phase.close && BodyExact(last)
  }

  lemma RespondOneMore(app: App, s: Session, req: Request, handled: bool, r: Response)
    requires handled ==> |req.body| == req.contentLength
    ensures OneMore(s, Respond(app, s, req, handled, r))
  {}

  lemma HandleRequestOneMore(app: App, config: Config, s: Session, req: Request, body: string)
    ensures OneMore(s, HandleRequest(app, config, s, req, body))
  {
    var (status, full) := WithBody(req, body, config);
    if status != Ok {
      RespondOneMore(app, s, full, false, ParseErrorResponse(app, status, "bad body"));
    } else {
      RespondOneMore(app, s, full, true, Answer(app, full));
    }
  }

  lemma HandleHeadOneMore(app: App, config: Config, s: Session, n: nat)
    requires n <= |s.buffer|
    ensures var t := HandleHead(app, config, s, n);
            OneMore(s, t) || (t.phase.ReadingBody? && t.exchanges == s.exchanges)
  {
    if n > config.maxHeaderBytes {
      RespondOneMore(app, s, EMPTY, false, ParseErrorResponse(app, HeaderTooLarge, "header limit"));
    } else {
      var parsed := ParseHead(s.buffer[..n], config);
      var s1 := Consume(s, n);
      if parsed.status != Ok {
        RespondOneMore(app, s1, parsed.request, false, ParseErrorResponse(app, parsed.status, parsed.message));
      } else {
        var len := parsed.request.contentLength;
        var already := if |s1.buffer| < len then |s1.buffer| else len;
        HandleRequestOneMore(app, config, Consume(s1, already), parsed.request, s1.buffer[..already]);
      }
    }
  }

  /** A step that starts from an open phase adds at most one exchange. */
  lemma ReadAddsOne(app: App, config: Config, s: Session, e: Event)
    requires Enabled(config, s, e) && (e.HeadRead? || e.BodyRead?)
    ensures var t := Apply(app, config, s, e);
            OneMore(s, t) || (t.phase.ReadingBody? && t.exchanges == s.exchanges)
  {
    match e
    case HeadRead(k) =>
      var s' := s.(buffer := s.buffer + s.unread[..k], unread := s.unread[k..]);
      HandleHeadOneMore(app, config, s', HeadLength(s'.buffer).value);
    case BodyRead =>
      var n := BodyTake(config, s);
      var s' := s.(buffer := s.buffer + s.unread[..n], unread := s.unread[n..]);
      HandleRequestOneMore(app, config, Consume(s', n), s.phase.request, s.phase.body + s'.buffer[..n]);
  }

  lemma OneMoreKeeps(s: Session, t: Session)
    requires CloseIsLast(s) && BodiesExact(s) && (s.phase == ReadingHead || s.phase.ReadingBody?)
    requires OneMore(s, t) || (t.phase.ReadingBody? && t.exchanges == s.exchanges)
    ensures CloseIsLast(t) && BodiesExact(t)
  {}

  lemma ApplyKeepsOrder(app: App, config: Config, s: Session, e: Event)
    requires Enabled(config, s, e) && CloseIsLast(s) && BodiesExact(s)
    ensures CloseIsLast(Apply(app, config, s, e)) && BodiesExact(Apply(app, config, s, e))
  {
    if e.HeadRead? || e.BodyRead? {
      ReadAddsOne(app, config, s, e);
      OneMoreKeeps(s, Apply(app, config, s, e));
    }
  }

  lemma ReadsOnCourse(app: App, config: Config, s: Session, e: Event, all: seq<Exchange>)
    requires Shape(config, s) && OnCourse(app, config, s, all) && Enabled(config, s, e)
    ensures Shape(config, Apply(app, config, s, e)) && OnCourse(app, config, Apply(app, config, s, e), all)
  {
    match e
    case HeadRead(k) =>
      var s' := s.(buffer := s.buffer + s.unread[..k], unread := s.unread[k..]);
      assert s'.buffer + s'.unread == s.buffer + s.unread;
      HandleHeadOnCourse(app, config, s', HeadLength(s'.buffer).value, all);
    case BodyRead => BodyReadOnCourse(app, config, s, all);
    case _ =>
  }

  lemma ApplyKeepsInv(app: App, config: Config, stream: string, s: Session, e: Event)
    requires Inv(app, config, stream, s) && Enabled(config, s, e)
    ensures Inv(app, config, stream, Apply(app, config, s, e))
  {
    ApplyConserves(app, config, s, e);
    ApplyKeepsOrder(app, config, s, e);
    ReadsOnCourse(app, config, s, e, Reference(app, config, stream));
  }

  lemma {:induction false} RunsKeepInv(app: App, config: Config, stream: string, s: Session, events: seq<Event>, t: Session)
    requires Inv(app, config, stream, s) && Runs(app, config, s, events, t)
    ensures Inv(app, config, stream, t)
    decreases |events|
  {
    if events == [] {
    } else {
      ApplyKeepsInv(app, config, stream, s, events[0]);
      RunsKeepInv(app, config, stream, Apply(app, config, s, events[0]), events[1..], t);
    }
  }

  lemma StartInv(app: App, config: Config, stream: string)
    ensures Inv(app, config, stream, Start(stream))
  {
    EmptyLeft(stream);
    EmptyLeft("");
    EmptyLeft(Reference(app, config, stream));
  }

  /** For every way the stream arrives, and wherever it is cut off: no byte is lost or read twice, the
      exchanges are the first ones of the reference, each request that was handled has exactly the
      body it announced, and nothing follows an exchange that closes. */
  lemma SessionFollowsReference(app: App, config: Config, stream: string, events: seq<Event>, t: Session)
    requires Runs(app, config, Start(stream), events, t)
    ensures t.consumed + t.buffer + t.unread == stream
    ensures t.exchanges <= Reference(app, config, stream)
    ensures BodiesExact(t) && CloseIsLast(t)
  {
    StartInv(app, config, stream);
    RunsKeepInv(app, config, stream, Start(stream), events, t);
  }

  /** A session that has answered all it was sent, or has closed after its last answer, has had every
      exchange of the reference. */
  lemma SessionCompletes(app: App, config: Config, stream: string, events: seq<Event>, t: Session)
    requires Runs(app, config, Start(stream), events, t)
    requires t.phase == Writing(true) || (t.phase == ReadingHead && HeadLength(t.buffer + t.unread).None?)
    ensures t.exchanges == Reference(app, config, stream)
  {
    StartInv(app, config, stream);
    RunsKeepInv(app, config, stream, Start(stream), events, t);
    assert t.exchanges + [] == t.exchanges;
  }

  /** The body read cannot end early: the buffer has room for all of it. */
  lemma BodyReadIsComplete(app: App, config: Config, stream: string, events: seq<Event>, t: Session)
    requires Runs(app, config, Start(stream), events, t) && t.phase.ReadingBody?
    ensures |t.phase.body| <= t.phase.request.contentLength
    ensures |t.buffer| <= config.maxHeaderBytes + config.maxBodyBytes + 4
    ensures BodyTake(config, t) == t.phase.request.contentLength - |t.phase.body|
  {
    StartInv(app, config, stream);
    RunsKeepInv(app, config, stream, Start(stream), events, t);
    BodyFits(config, t);
  }

  /** A request that reached the application is answered with what the application made of it. */
  predicate AnsweredByApp(app: App, e: Exchange) {
    e.handled ==> e == Exchanged(app, e.request, true, Answer(app, e.request))
  }

  lemma {:induction false} ReferenceAnswers(app: App, config: Config, stream: string)
    ensures forall e :: e in Reference(app, config, stream) ==> AnsweredByApp(app, e)
    decreases |stream|
  {
    if HeadLength(stream).Some? {
      var n := HeadLength(stream).value;
      if n <= MaxBuffer(config) && n <= config.maxHeaderBytes {
        var parsed := ParseHead(stream[..n], config);
        if parsed.status == Ok && parsed.request.contentLength <= |stream| - n {
          ReferenceAnswers(app, config, stream[n..][parsed.request.contentLength..]);
        }
      }
    }
  }

  /** When the handler throws, the client is told so, and nothing further is read or answered. */
  lemma ThrowIsLast(app: App, config: Config, stream: string, events: seq<Event>, t: Session, i: nat)
    requires Runs(app, config, Start(stream), events, t)
    requires i < |t.exchanges| && t.exchanges[i].handled && Throws(app, t.exchanges[i].request)
    ensures i == |t.exchanges| - 1 && t.exchanges[i].close && (t.phase == Writing(true) || t.phase == Closed)
    ensures Answer(app, t.exchanges[i].request).statusCode == 500
  {
    hide Answer, Reference, Runs, Throws;
    SessionFollowsReference(app, config, stream, events, t);
    ReferenceAnswers(app, config, stream);
    assert t.exchanges[i] == Reference(app, config, stream)[i];
    assert AnsweredByApp(app, t.exchanges[i]);
    ThrownAnswer(app, t.exchanges[i].request);
    StartInv(app, config, stream);
    RunsKeepInv(app, config, stream, Start(stream), events, t);
  }
}
