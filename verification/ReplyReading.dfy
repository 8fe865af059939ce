/** The responses of the epoll server as a client reads them back. */
module ReplyReading {
  import opened Text
  import opened Ctype
  import opened RequestText
  import opened HttpPrint
  import opened HttpServer
  import opened ResponseReader
  import HttpContext
  import HttpParser
  import ReplyStream
  import RequestStream

  predicate PrintableResponse(r: Response) {
    && OneLine(r.statusMessage) && |r.body| < HttpParser.SIZE_MODULUS
    && forall i :: 0 <= i < |r.headers| ==> Neutral(r.headers[i])
  }

  function ConnectionValue(close: bool): string { if close then "close" else "Keep-Alive" }

  lemma ConnectionValuePrintable(close: bool)
    ensures PrintableHeader(("Connection", ConnectionValue(close)))
    ensures Lower(ConnectionValue(close)) == if close then "close" else "keep-alive"
  {
    WordsLower();
  }

  lemma DefaultTypeNeutral()
    ensures Neutral(("Content-Type", "text/html; charset=utf-8"))
  {
    NamesLower();
    TypePrintable("text/html; charset=utf-8");
    assert |"connection"| == 10 && |"content-type"| == 12 && |"content-length"| == 14;
  }

  /** Without a body no length is announced. */
  lemma WithoutBodySays(close: bool, hs: seq<(string, string)>)
    requires forall i :: 0 <= i < |hs| ==> Neutral(hs[i])
    ensures FieldsSay([("Connection", ConnectionValue(close))] + hs, None, close)
  {
    ConnectionValuePrintable(close);
    var s := ConnectionThen(close, ConnectionValue(close), hs);
    NeutralTaken(s, hs);
    assert forall i :: 0 <= i < |hs| ==> Neutral(hs[i]) ==> PrintableHeader(hs[i]);
    PrintableCons(("Connection", ConnectionValue(close)), hs);
  }

  lemma WithBodySays(close: bool, n: nat, hs: seq<(string, string)>)
    requires n < HttpParser.SIZE_MODULUS && forall i :: 0 <= i < |hs| ==> Neutral(hs[i])
    ensures FieldsSay([("Connection", ConnectionValue(close))] + ([("Content-Length", Decimal(n))] + hs), Some(n), close)
  {
    ConnectionValuePrintable(close);
    LengthReads(n);
    LengthPrintable(Decimal(n));
    var rest := [("Content-Length", Decimal(n))] + hs;
    var s1 := ConnectionThen(close, ConnectionValue(close), rest);
    var s2 := LengthThen(s1, n, hs);
    NeutralTaken(s2, hs);
    assert forall i :: 0 <= i < |hs| ==> Neutral(hs[i]) ==> PrintableHeader(hs[i]);
    PrintableCons(("Content-Length", Decimal(n)), hs);
    PrintableCons(("Connection", ConnectionValue(close)), rest);
  }

  /** The header lines, with the default content type where it is due. */
  function Typed(r: Response): seq<(string, string)> {
    (if r.body == "" || HasHeader(r.headers, "Content-Type") then []
     else [("Content-Type", "text/html; charset=utf-8")])
    + r.headers
  }

  lemma OwnFieldsThen(r: Response)
    ensures OwnFields(r) + r.headers ==
            [("Connection", ConnectionValue(r.closeConnection))]
            + if r.body == "" then r.headers else [("Content-Length", Decimal(|r.body|))] + Typed(r)
  {}

  function LengthSent(r: Response): Option<nat> { if r.body == "" then None else Some(|r.body|) }

  lemma OwnFieldsSay(r: Response)
    requires PrintableResponse(r)
    ensures FieldsSay(OwnFields(r) + r.headers, LengthSent(r), r.closeConnection)
  {
    OwnFieldsThen(r);
    if r.body == "" {
      WithoutBodySays(r.closeConnection, r.headers);
    } else {
      DefaultTypeNeutral();
      WithBodySays(r.closeConnection, |r.body|, Typed(r));
    }
  }

  // ----- one response -----

  function HeadOf(r: Response): string { HeadText(StatusLine(r), OwnFields(r) + r.headers) }

  predicate Bodiless(r: Response, toHead: bool) { toHead || NoBodyStatus(r.statusCode) }

  function Expected(r: Response, toHead: bool): Received {
    Received(HeadOf(r), if Bodiless(r, toHead) then "" else r.body, r.closeConnection)
  }

  /** How far the body reaches, for a client. */
  lemma ExtentOfResponse(r: Response, toHead: bool)
    ensures ExtentOf(StatusLine(r), toHead, LengthSent(r)) ==
            if Bodiless(r, toHead) then Nothing else if r.body == "" then UntilClose else Exactly(|r.body|)
  {
    CodeOfStatusLine(r.statusCode, r.statusMessage);
    CodeMeans(r.statusCode);
  }

  lemma ResponseTaken(r: Response, after: string, heads: seq<bool>, ended: bool)
    requires PrintableResponse(r) && heads != []
    ensures ReadAll(HeadOf(r) + after, heads, ended) ==
            Taken(HeadOf(r), ExtentOf(StatusLine(r), heads[0], LengthSent(r)), r.closeConnection, after, heads[1..], ended)
  {
    hide ReadAll, ExtentOf, Taken, LengthSent;
    OwnFieldsSay(r);
    MessageRead(StatusLine(r), OwnFields(r) + r.headers, LengthSent(r), r.closeConnection, after, heads, ended);
  }

  /** One response, with anything behind it, for every kind of request. The server sends the body with every
      answer, so that of an answer to HEAD is read as what follows it; and it announces a length only for a
      body, so an empty answer lasts until the connection ends. */
  lemma ResponseRead(r: Response, rest: string, heads: seq<bool>, ended: bool)
    requires PrintableResponse(r) && heads != []
    ensures ReadAll(Serialize(r) + rest, heads, ended) ==
            if Bodiless(r, heads[0]) then Cons(Expected(r, heads[0]), ReadAll(r.body + rest, heads[1..], ended))
            else if r.body != "" then Cons(Expected(r, heads[0]), ReadAll(rest, heads[1..], ended))
            else if ended then Reading([Received(HeadOf(r), rest, r.closeConnection)], "")
            else Reading([], Serialize(r) + rest)
  {
    ResponseTaken(r, r.body + rest, heads, ended);
    ExtentOfResponse(r, heads[0]);
    assert Serialize(r) == HeadOf(r) + r.body;
    hide ReadAll, ExtentOf, HeadOf, Serialize, LengthSent, PrintableResponse;
    Assoc(HeadOf(r), r.body, rest);
    assert (r.body + rest)[..|r.body|] == r.body && (r.body + rest)[|r.body|..] == rest;
    if r.body == "" { EmptyLeft(rest); }
  }

  /** A client finds the end of this answer: nothing is sent where it does not look for a body, and
      where it does there is a body with its length, or the connection ends. */
  predicate Framed(r: Response, toHead: bool) {
    if Bodiless(r, toHead) then r.body == "" else r.body != "" || r.closeConnection
  }

  // ----- streams -----

  predicate ToHead(req: HttpContext.Request) { req.meth == HttpContext.Head }

  function Heads(reqs: seq<HttpContext.Request>): seq<bool> {
    if reqs == [] then [] else [ToHead(reqs[0])] + Heads(reqs[1..])
  }

  /** The application's answers, up to and including the first that closes. */
  function Answers(f: Option<Callback>, reqs: seq<HttpContext.Request>): seq<Received> {
    if reqs == [] then []
    else
      var r := Answer(f, reqs[0]);
      [Expected(r, ToHead(reqs[0]))] + if r.closeConnection then [] else Answers(f, reqs[1..])
  }

  /** All of these are framed. */
  predicate AllFramed(f: Option<Callback>, reqs: seq<HttpContext.Request>) {
    reqs == [] ||
    var r := Answer(f, reqs[0]);
    Framed(r, ToHead(reqs[0])) && (r.closeConnection || AllFramed(f, reqs[1..]))
  }

  /** Fewer bytes are expected than sent, unless answers without a body really have none. */
  lemma {:induction false} AnswerBytes(f: Option<Callback>, reqs: seq<HttpContext.Request>)
    ensures |BytesOf(Answers(f, reqs))| <= |ReplyStream.Texts(RepliesTo(f, reqs))|
    ensures reqs != [] && Bodiless(Answer(f, reqs[0]), ToHead(reqs[0])) && Answer(f, reqs[0]).body != "" ==>
              |BytesOf(Answers(f, reqs))| < |ReplyStream.Texts(RepliesTo(f, reqs))|
  {
    if reqs == [] {
    } else {
      AnswerBytes(f, reqs[1..]);
      FirstReply(f, reqs);
      assert Answers(f, reqs)[1..] == if Answer(f, reqs[0]).closeConnection then [] else Answers(f, reqs[1..]);
    }
  }

  /** What is sent, divided at the end of the first answer. */
  lemma FirstReply(f: Option<Callback>, reqs: seq<HttpContext.Request>)
    requires reqs != []
    ensures var r := Answer(f, reqs[0]);
            && ReplyStream.Texts(RepliesTo(f, reqs)) == Serialize(r) + Behind(f, reqs)
            && ReplyStream.Closes(RepliesTo(f, reqs)) == (r.closeConnection || ReplyStream.Closes(RepliesTo(f, reqs[1..])))
            && Serialize(r) == HeadOf(r) + r.body
  {
    var r, rs := Answer(f, reqs[0]), RepliesTo(f, reqs);
    assert rs[0] == Reply(Serialize(r), r.closeConnection) && rs[1..] == RepliesTo(f, reqs[1..]);
  }

  function Behind(f: Option<Callback>, reqs: seq<HttpContext.Request>): string
    requires reqs != []
  {
    if Answer(f, reqs[0]).closeConnection then "" else ReplyStream.Texts(RepliesTo(f, reqs[1..]))
  }

  ghost predicate ReadRight(f: Option<Callback>, reqs: seq<HttpContext.Request>, ended: bool) {
    ReadAll(ReplyStream.Texts(RepliesTo(f, reqs)), Heads(reqs), ended) == Reading(Answers(f, reqs), "")
  }

  /** One answer and what is behind it. */
  lemma FirstRead(f: Option<Callback>, reqs: seq<HttpContext.Request>, ended: bool)
    requires reqs != [] && PrintableResponse(Answer(f, reqs[0]))
    ensures var r, toHead := Answer(f, reqs[0]), ToHead(reqs[0]);
            var text := ReplyStream.Texts(RepliesTo(f, reqs));
            var behind := ReadAll(Behind(f, reqs), Heads(reqs[1..]), ended);
            && (r.body != "" && !Bodiless(r, toHead) ==>
                  ReadAll(text, Heads(reqs), ended) == Cons(Expected(r, toHead), behind))
            && (r.body == "" && Bodiless(r, toHead) ==>
                  ReadAll(text, Heads(reqs), ended) == Cons(Expected(r, toHead), behind))
            && (r.body == "" && !Bodiless(r, toHead) ==>
                  ReadAll(text, Heads(reqs), ended) ==
                  if ended then Reading([Received(HeadOf(r), Behind(f, reqs), r.closeConnection)], "")
                  else Reading([], text))
  {
    FirstReply(f, reqs);
    ResponseRead(Answer(f, reqs[0]), Behind(f, reqs), Heads(reqs), ended);
    EmptyLeft(Behind(f, reqs));
  }

  lemma NothingRead(heads: seq<bool>, ended: bool)
    ensures ReadAll("", heads, ended) == Reading([], "")
  {}

  /** Taking the first answer off both sides. */
  lemma ConsRight(m: Received, r: Reading, ms: seq<Received>)
    ensures Cons(m, r) == Reading([m] + ms, "") <==> r == Reading(ms, "")
  {
    assert ([m] + r.messages)[1..] == r.messages && ([m] + ms)[1..] == ms;
  }

  /** An empty answer that should have had a length: the client waits, or takes what follows for its body. */
  lemma EmptyAnswerMisread(f: Option<Callback>, reqs: seq<HttpContext.Request>, ended: bool)
    requires reqs != [] && PrintableResponse(Answer(f, reqs[0]))
    requires ended <==> ReplyStream.Closes(RepliesTo(f, reqs))
    requires var r := Answer(f, reqs[0]); r.body == "" && !Bodiless(r, ToHead(reqs[0])) && !r.closeConnection
    ensures !ReadRight(f, reqs, ended)
  {
    FirstRead(f, reqs, ended);
    FirstReply(f, reqs);
    if ended {
      assert reqs[1..] != [];
      assert |Answers(f, reqs)| >= 2;
    }
  }

  /** The body of an answer that has none for the client: bytes are left over, or taken for heads. */
  lemma BodyMisread(f: Option<Callback>, reqs: seq<HttpContext.Request>, ended: bool)
    requires reqs != [] && Answer(f, reqs[0]).body != "" && Bodiless(Answer(f, reqs[0]), ToHead(reqs[0]))
    ensures !ReadRight(f, reqs, ended)
  {
    AnswerBytes(f, reqs);
    ReadingConserves(ReplyStream.Texts(RepliesTo(f, reqs)), Heads(reqs), ended);
    assert BytesOf(Answers(f, reqs)) + "" == BytesOf(Answers(f, reqs));
  }

  /** The client reads back every answer up to the first that closes, and has no byte left over, if and only
      if each of them is framed. */
  lemma {:induction false} ReadRightIff(f: Option<Callback>, reqs: seq<HttpContext.Request>, ended: bool)
    requires forall i :: 0 <= i < |reqs| ==> PrintableResponse(Answer(f, reqs[i]))
    requires ended <==> ReplyStream.Closes(RepliesTo(f, reqs))
    ensures ReadRight(f, reqs, ended) <==> AllFramed(f, reqs)
  {
    if reqs == [] {
      NothingRead([], ended);
    } else {
      var r, toHead := Answer(f, reqs[0]), ToHead(reqs[0]);
      if Bodiless(r, toHead) && r.body != "" {
        BodyMisread(f, reqs, ended);
      } else if !Bodiless(r, toHead) && r.body == "" && !r.closeConnection {
        EmptyAnswerMisread(f, reqs, ended);
      } else {
        FramedFirst(f, reqs, ended);
        if !r.closeConnection {
          FirstReply(f, reqs);
          ReadRightIff(f, reqs[1..], ended);
        }
      }
    }
  }

  lemma FramedFirst(f: Option<Callback>, reqs: seq<HttpContext.Request>, ended: bool)
    requires reqs != [] && PrintableResponse(Answer(f, reqs[0]))
    requires ended <==> ReplyStream.Closes(RepliesTo(f, reqs))
    requires Framed(Answer(f, reqs[0]), ToHead(reqs[0]))
    ensures ReadRight(f, reqs, ended) <==> (Answer(f, reqs[0]).closeConnection || ReadRight(f, reqs[1..], ended))
  {
    var r, toHead := Answer(f, reqs[0]), ToHead(reqs[0]);
    var ms := if r.closeConnection then [] else Answers(f, reqs[1..]);
    FirstRead(f, reqs, ended);
    FirstReply(f, reqs);
    NothingRead(Heads(reqs[1..]), ended);
    ConsRight(Expected(r, toHead), ReadAll(Behind(f, reqs), Heads(reqs[1..]), ended), ms);
    assert Answers(f, reqs) == [Expected(r, toHead)] + ms;
  }

  // ----- from end to end -----

  /** What the client knows of its own requests. */
  function Asked(hs: seq<Head>): seq<bool> {
    if hs == [] then [] else [hs[0].meth == "HEAD"] + Asked(hs[1..])
  }

  lemma {:induction false} AskedIsHeads(hs: seq<Head>)
    ensures Asked(hs) == Heads(RequestStream.Meanings(hs))
  {
    if hs == [] {
    } else {
      assert hs[0].meth == "HEAD" <==> HttpContext.MethodOf(hs[0].meth) == HttpContext.Head;
      AskedIsHeads(hs[1..]);
    }
  }

  /** A client that has pipelined requests, however they were cut into reads and however the answers were cut
      into writes, reads back the application's answers, in order, each body whole and no more, up to and
      including the first that closes, with no byte left over, if and only if each of these answers is
      framed: none to HEAD, and none with a 1xx, 204 or 304 status, has a body, and no other one is empty
      on a connection that stays open. */
  lemma PipelineReadIff(f: Option<Callback>, hs: seq<Head>, events: seq<ReplyStream.Event>)
    requires forall i :: 0 <= i < |hs| ==> RequestStream.Printable(hs[i])
    requires Concat(ReplyStream.Received(f, ReplyStream.ESTABLISHED, events)) == RequestStream.PrintAll(hs)
    requires var c := ReplyStream.Run(f, ReplyStream.ESTABLISHED, events).conn; c.Open() && c.out == ""
    requires forall req :: req in RequestStream.Meanings(hs) ==> PrintableResponse(Answer(f, req))
    ensures var c, reqs := ReplyStream.Run(f, ReplyStream.ESTABLISHED, events).conn, RequestStream.Meanings(hs);
            ReadAll(c.wire, Asked(hs), c.halfClosed != []) == Reading(Answers(f, reqs), "") <==> AllFramed(f, reqs)
  {
    var reqs := RequestStream.Meanings(hs);
    ReplyStream.PipelineAnswered(f, hs, events);
    AskedIsHeads(hs);
    ReadRightIff(f, reqs, ReplyStream.Closes(RepliesTo(f, reqs)));
  }

  /** Where it breaks: a server without a callback answers every request with a page, HEAD too. */
  lemma HeadAnswerBreaks(h: Head)
    requires RequestStream.Printable(h) && h.meth == "HEAD"
    ensures !AllFramed(None, RequestStream.Meanings([h]))
  {
    assert RequestStream.Meanings([h]) == [RequestStream.Meaning(h)] + RequestStream.Meanings([]);
    assert HttpContext.MethodOf("HEAD") == HttpContext.Head;
  }

  /** And an application that leaves the response as it finds it gives an empty answer without a length. */
  lemma EmptyAnswerBreaks(h: Head)
    requires RequestStream.Printable(h) && h.meth == "GET" && h.version == "HTTP/1.1" && h.headers == []
    ensures !AllFramed(Some((req, resp) => resp), RequestStream.Meanings([h]))
  {
    var req := RequestStream.Meaning(h);
    assert RequestStream.Meanings([h]) == [req] + RequestStream.Meanings([]);
    assert req.meth == HttpContext.Get && req.version == HttpContext.Http11 && req.GetHeader("Connection") == "";
  }
}
