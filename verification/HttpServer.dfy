/** The epoll HTTP server: every request found in the input buffer is answered on the connection, and
    what reaches the peer is compared with the answers to the whole request stream. */
module HttpServer {
  import opened Text
  import opened NetBuffer
  import opened HttpContext
  import opened ConnectionSpec
  import TcpConnection

  /** `headers` is in the iteration order of the source's ordered map. */
  datatype Response = Response(statusCode: nat, statusMessage: string, headers: seq<(string, string)>,
                               body: string, closeConnection: bool)

  function NewResponse(close: bool): Response {
    Response(200, "", [], "", close)
  }

  predicate HasHeader(headers: seq<(string, string)>, key: string) {
    exists i :: 0 <= i < |headers| && headers[i].0 == key
  }

  function StatusLine(r: Response): string { "HTTP/1.1 " + Decimal(r.statusCode) + " " + r.statusMessage }

  /** The fields the server adds. A length is announced only when there is a body. */
  function OwnFields(r: Response): seq<(string, string)> {
    [("Connection", if r.closeConnection then "close" else "Keep-Alive")]
    + (if r.body == "" then [] else [("Content-Length", Decimal(|r.body|))])
    + if r.body == "" || HasHeader(r.headers, "Content-Type") then []
      else [("Content-Type", "text/html; charset=utf-8")]
  }

  /** appendToBuffer. */
  function Serialize(r: Response): string {
    HeadText(StatusLine(r), OwnFields(r) + r.headers) + r.body
  }

  /** The text of an answer, field by field: a length and a type are announced only with a body, and the
      type only when the response has no header of exactly that name. */
  lemma AnswerText(r: Response)
    ensures Serialize(r) ==
            "HTTP/1.1 " + Decimal(r.statusCode) + " " + r.statusMessage + "\r\n"
            + ((if r.closeConnection then "Connection: close\r\n" else "Connection: Keep-Alive\r\n")
               + (if r.body == "" then "" else "Content-Length: " + Decimal(|r.body|) + "\r\n")
               + (if r.body == "" || exists i :: 0 <= i < |r.headers| && r.headers[i].0 == "Content-Type" then ""
                  else "Content-Type: text/html; charset=utf-8\r\n")
               + HeaderText(r.headers) + "\r\n")
            + r.body
  {
    var own := OwnFields(r);
    HeaderTextAppend(own, r.headers);
    OwnText(r);
  }

  lemma OwnText(r: Response)
    ensures HeaderText(OwnFields(r)) ==
            (if r.closeConnection then "Connection: close\r\n" else "Connection: Keep-Alive\r\n")
            + (if r.body == "" then "" else "Content-Length: " + Decimal(|r.body|) + "\r\n")
            + (if r.body == "" || HasHeader(r.headers, "Content-Type") then ""
               else "Content-Type: text/html; charset=utf-8\r\n")
  {
    hide Decimal, HasHeader, HeaderText;
    var a := [("Connection", if r.closeConnection then "close" else "Keep-Alive")];
    var b := if r.body == "" then [] else [("Content-Length", Decimal(|r.body|))];
    var c := if r.body == "" || HasHeader(r.headers, "Content-Type") then []
             else [("Content-Type", "text/html; charset=utf-8")];
    HeaderTextAppend(a + b, c);
    HeaderTextAppend(a, b);
    NoFields();
    OneField("Connection", "close");
    OneField("Connection", "Keep-Alive");
    OneField("Content-Length", Decimal(|r.body|));
    OneField("Content-Type", "text/html; charset=utf-8");
    FixedLines();
    TypeLine();
  }

  lemma FixedLines()
    ensures "Connection" + ": " + "close" + "\r\n" == "Connection: close\r\n"
    ensures "Connection" + ": " + "Keep-Alive" + "\r\n" == "Connection: Keep-Alive\r\n"
    ensures "Content-Length" + ": " == "Content-Length: "
  {}

  lemma TypeLine()
    ensures "Content-Type" + ": " + "text/html; charset=utf-8" + "\r\n" == "Content-Type: text/html; charset=utf-8\r\n"
  {}

  lemma NoFields()
    ensures HeaderText([]) == ""
  {}

  lemma OneField(name: string, value: string)
    ensures HeaderText([(name, value)]) == name + ": " + value + "\r\n"
  {
    assert [(name, value)][1..] == [];
  }

  predicate ShouldCloseConnection(req: Request) {
    var connection := req.GetHeader("Connection");
    connection == "close" || (req.version == Http10 && connection != "Keep-Alive")
  }

  /** The application callback: it edits a response for a request. */
  type Callback = (Request, Response) -> Response

  function Answer(callback: Option<Callback>, req: Request): Response {
    var resp := NewResponse(ShouldCloseConnection(req));
    if req.meth == Invalid || req.version == UnknownVersion then
      resp.(statusCode := 400, statusMessage := "Bad Request", closeConnection := true,
            body := "<h1>400 Bad Request</h1>")
    else
      match callback
      case Some(f) => f(req, resp)
      case None => resp.(statusCode := 404, statusMessage := "Not Found", body := "<h1>404 Not Found</h1>")
  }

  /** The method or the version is not one the server knows. */
  predicate Refused(req: Request) { req.meth == Invalid || req.version == UnknownVersion }

  /** An HTTP/1.1 connection stays open unless the request says close, an HTTP/1.0 one only if it says
      Keep-Alive; the words are taken literally. */
  lemma KeptOpenIff(req: Request)
    requires !Refused(req)
    ensures var word := req.GetHeader("Connection");
            !ShouldCloseConnection(req) <==>
              if req.version == Http11 then word != "close" else word == "Keep-Alive"
  {
    assert |"close"| != |"Keep-Alive"|;
  }

  /** What onRequest passes to send(), and whether it then calls shutdown(). */
  datatype Reply = Reply(text: string, close: bool)

  function ReplyTo(callback: Option<Callback>, req: Request): Reply {
    var resp := Answer(callback, req);
    Reply(Serialize(resp), resp.closeConnection)
  }

  /** Whatever the callback, a refused request is answered with 400, announced and carried out as the last
      answer on its connection. */
  lemma RefusedReply(callback: Option<Callback>, req: Request)
    requires Refused(req)
    ensures var reply := ReplyTo(callback, req);
            reply.close && "HTTP/1.1 400 Bad Request" + CRLF + ("Connection: close" + CRLF) <= reply.text
  {
    var resp := Answer(callback, req);
    Decimal400();
    assert StatusLine(resp) == "HTTP/1.1 400 Bad Request";
    ClosingStart(resp);
  }

  lemma ClosingStart(resp: Response)
    requires resp.closeConnection
    ensures StatusLine(resp) + CRLF + ("Connection: close" + CRLF) <= Serialize(resp)
  {
    hide StatusLine;
    var fields := OwnFields(resp) + resp.headers;
    assert fields[0] == ("Connection", "close");
    assert FieldLine(("Connection", "close")) == "Connection: close";
    HeadStarts(StatusLine(resp), "Connection: close", fields, resp.body);
  }

  lemma HeadStarts(line: string, field: string, fields: seq<(string, string)>, body: string)
    requires fields != [] && FieldLine(fields[0]) == field
    ensures line + CRLF + (field + CRLF) <= HeadText(line, fields) + body
  {
    hide FieldLine;
    PrefixThrough(line + CRLF, field + CRLF, HeaderText(fields[1..]), CRLF, body);
  }

  lemma Decimal400()
    ensures Decimal(400) == "400"
  {
    assert Decimal(40) == Decimal(4) + "0" && Decimal(400) == Decimal(40) + "0";
  }

  lemma PrefixThrough(a: string, b: string, c: string, d: string, e: string)
    ensures a + b <= a + ((b + c) + d) + e
  {}

  function RepliesTo(callback: Option<Callback>, reqs: seq<Request>): (rs: seq<Reply>)
    ensures |rs| == |reqs|
  {
    if reqs == [] then [] else [ReplyTo(callback, reqs[0])] + RepliesTo(callback, reqs[1..])
  }

  /** onRequest, on the connection as a value. */
  function Replied(c: Conn, reply: Reply, w: WriteResult): Conn {
    var sent := Sent(c, reply.text, w);
    if reply.close then ShutDown(sent) else sent
  }

  function First(ws: seq<WriteResult>): WriteResult { if ws == [] then WouldBlock else ws[0] }
  function Rest(ws: seq<WriteResult>): seq<WriteResult> { if ws == [] then [] else ws[1..] }

  function RepliedAll(c: Conn, replies: seq<Reply>, ws: seq<WriteResult>): Conn
    decreases |replies|
  {
    if replies == [] then c else RepliedAll(Replied(c, replies[0], First(ws)), replies[1..], Rest(ws))
  }

  /** The loop of onMessage: parse one request, answer it, go on with the rest of the input. */
  function Handled(callback: Option<Callback>, c: Conn, ctx: Ctx, s: string, ws: seq<WriteResult>): (Conn, Ctx, string)
    decreases |s|
  {
    if s == "" then (c, ctx, s)
    else
      var o := Parse(ctx, s);
      if !o.got then (c, o.ctx, o.rest)
      else Handled(callback, Replied(c, ReplyTo(callback, o.ctx.request), First(ws)), START, o.rest, Rest(ws))
  }

  lemma {:induction false} HandledIsDrained(callback: Option<Callback>, c: Conn, ctx: Ctx, s: string,
                                            ws: seq<WriteResult>)
    ensures var d := Drain(ctx, s);
            Handled(callback, c, ctx, s, ws) == (RepliedAll(c, RepliesTo(callback, d.requests), ws), d.ctx, d.rest)
    decreases |s|
  {
    if s == "" {
    } else {
      var o := Parse(ctx, s);
      if o.got {
        HandledIsDrained(callback, Replied(c, ReplyTo(callback, o.ctx.request), First(ws)), START, o.rest, Rest(ws));
      }
    }
  }

  lemma Regroup(c: string, first: string, own: string, more: string, end: string, body: string)
    ensures c + first + own + more + end + body == c + (first + ((own + more) + end) + body)
  {}

  class HttpServer {
    const httpCallback: Option<Callback>

    constructor (httpCallback: Option<Callback>)
      ensures this.httpCallback == httpCallback
    {
      this.httpCallback := httpCallback;
    }

    /** The response before it is written. A refused request gets 400 and the end of the connection,
        whatever the callback; any other gets what the callback makes of an empty 200 response that closes
        if the request asks for it, or 404 if there is no callback. */
    method MakeResponse(req: Request) returns (resp: Response)
      ensures Refused(req) ==> resp == Response(400, "Bad Request", [], "<h1>400 Bad Request</h1>", true)
      ensures !Refused(req) && httpCallback.None? ==>
                && resp == Response(404, "Not Found", [], "<h1>404 Not Found</h1>", resp.closeConnection)
                && (resp.closeConnection <==> if req.version == Http11 then req.GetHeader("Connection") == "close"
                                              else req.GetHeader("Connection") != "Keep-Alive")
      ensures !Refused(req) && httpCallback.Some? ==>
                exists start :: resp == httpCallback.value(req, start)
                                && start == Response(200, "", [], "", start.closeConnection)
                                && (start.closeConnection <==>
                                     if req.version == Http11 then req.GetHeader("Connection") == "close"
                                     else req.GetHeader("Connection") != "Keep-Alive")
      ensures resp == Answer(httpCallback, req)
    {
      if !Refused(req) { KeptOpenIff(req); }
      resp := NewResponse(ShouldCloseConnection(req));
      if req.meth == Invalid || req.version == UnknownVersion {
        resp := resp.(statusCode := 400, statusMessage := "Bad Request", closeConnection := true,
                      body := "<h1>400 Bad Request</h1>");
      } else if httpCallback.Some? {
        resp := httpCallback.value(req, resp);
      } else {
        resp := resp.(statusCode := 404, statusMessage := "Not Found", body := "<h1>404 Not Found</h1>");
      }
    }

    method AppendFields(fields: seq<(string, string)>, output: Buffer)
      requires output.Valid()
      modifies output, output.data
      ensures output.Valid() && (output.data == old(output.data) || fresh(output.data))
      ensures output.Contents() == old(output.Contents()) + HeaderText(fields)
    {
      assert output.Contents() + HeaderText(fields[0..]) == output.Contents() + HeaderText(fields);
      for i := 0 to |fields|
        invariant output.Valid() && (output.data == old(output.data) || fresh(output.data))
        invariant output.Contents() + HeaderText(fields[i..]) == old(output.Contents()) + HeaderText(fields)
      {
        var line := FieldLine(fields[i]) + CRLF;
        assert HeaderText(fields[i..]) == line + HeaderText(fields[i + 1..]);
        Assoc(output.Contents(), line, HeaderText(fields[i + 1..]));
        output.Append(line);
      }
      assert fields[|fields|..] == [] && output.Contents() + "" == output.Contents();
    }

    method AppendToBuffer(resp: Response, output: Buffer)
      requires output.Valid()
      modifies output, output.data
      ensures output.Valid() && (output.data == old(output.data) || fresh(output.data))
      ensures output.Contents() == old(output.Contents()) + Serialize(resp)
    {
      var first, own, more := StatusLine(resp) + CRLF, HeaderText(OwnFields(resp)), HeaderText(resp.headers);
      ghost var c := output.Contents();
      output.Append(first);
      AppendFields(OwnFields(resp), output);
      AppendFields(resp.headers, output);
      output.Append(CRLF);
      output.Append(resp.body);
      HeaderTextAppend(OwnFields(resp), resp.headers);
      assert output.Contents() == c + first + own + more + CRLF + resp.body;
      Regroup(c, first, own, more, CRLF, resp.body);
    }

    /** A response in a buffer of its own, as a text. */
    method Output(resp: Response) returns (text: string)
      ensures text == Serialize(resp)
    {
      var output := new Buffer();
      AppendToBuffer(resp, output);
      EmptyLeft(Serialize(resp));
      text := output.Peek();
    }

    method OnRequest(conn: TcpConnection.TcpConnection, req: Request, w: WriteResult)
      requires conn.Valid()
      modifies conn, conn.channel, conn.channel.poller, conn.outputBuffer, conn.outputBuffer.data
      ensures conn.Valid()
      ensures conn.outputBuffer.data == old(conn.outputBuffer.data) || fresh(conn.outputBuffer.data)
      ensures conn.View() == Replied(old(conn.View()), ReplyTo(httpCallback, req), w)
    {
      var resp := MakeResponse(req);
      var text := Output(resp);
      var posted := conn.Send(text, true, w);
      if resp.closeConnection {
        var later := conn.Shutdown(true);
      }
    }

    /** One turn of onMessage: parse one request and answer it. */
    method HandleOne(conn: TcpConnection.TcpConnection, context: HttpContext, w: WriteResult) returns (got: bool)
      requires conn.Valid()
      modifies conn, conn.channel, conn.channel.poller, conn.outputBuffer, conn.outputBuffer.data
      modifies context, conn.inputBuffer
      ensures conn.Valid() && conn.inputBuffer.data == old(conn.inputBuffer.data)
      ensures conn.outputBuffer.data == old(conn.outputBuffer.data) || fresh(conn.outputBuffer.data)
      ensures var o := Parse(old(context.Value()), old(conn.inputBuffer.Contents()));
              && got == o.got
              && conn.inputBuffer.Contents() == o.rest
              && context.Value() == (if got then START else o.ctx)
              && conn.View() == if got then Replied(old(conn.View()), ReplyTo(httpCallback, o.ctx.request), w)
                                else old(conn.View())
    {
      hide Parse, ReplyTo, Replied;
      got := context.ParseRequest(conn.inputBuffer);
      if got {
        OnRequest(conn, context.request, w);
        context.Reset();
      }
    }

    /** The message callback. `ws` is what the kernel makes of the direct writes, in turn. */
    method OnMessage(conn: TcpConnection.TcpConnection, context: HttpContext, ws: seq<WriteResult>)
      requires conn.Valid()
      modifies conn, conn.channel, conn.channel.poller, conn.outputBuffer, conn.outputBuffer.data
      modifies context, conn.inputBuffer
      ensures conn.Valid()
      ensures var d := Drain(old(context.Value()), old(conn.inputBuffer.Contents()));
              && context.Value() == d.ctx
              && conn.inputBuffer.Contents() == d.rest
              && conn.View() == RepliedAll(old(conn.View()), RepliesTo(httpCallback, d.requests), ws)
    {
      var buf := conn.inputBuffer;
      HandledIsDrained(httpCallback, conn.View(), context.Value(), buf.Contents(), ws);
      ghost var target := Handled(httpCallback, conn.View(), context.Value(), buf.Contents(), ws);
      var left := ws;
      while buf.ReadableBytes() > 0
        invariant conn.Valid() && buf.data == old(buf.data)
        invariant conn.outputBuffer.data == old(conn.outputBuffer.data) || fresh(conn.outputBuffer.data)
        invariant Handled(httpCallback, conn.View(), context.Value(), buf.Contents(), left) == target
        decreases |buf.Contents()|
      {
        var got := HandleOne(conn, context, First(left));
        if !got { return; }
        left := Rest(left);
      }
    }

    /** The connection's descriptor is readable: handleRead, then the message callback if bytes came. */
    method OnReadable(conn: TcpConnection.TcpConnection, context: HttpContext, r: ReadResult, ws: seq<WriteResult>)
      requires conn.Valid()
      requires r.Bytes? ==> |r.bytes| <= conn.inputBuffer.ReadCapacity()
      requires TcpConnection.Closes(r) ==> conn.View().Open()
      modifies conn, conn.channel, conn.channel.poller, conn.outputBuffer, conn.outputBuffer.data
      modifies context, conn.inputBuffer, conn.inputBuffer.data
      ensures conn.Valid()
      ensures r.Bytes? && r.bytes != "" ==>
                var d := Drain(old(context.Value()), old(conn.inputBuffer.Contents()) + r.bytes);
                && context.Value() == d.ctx
                && conn.inputBuffer.Contents() == d.rest
                && conn.View() == RepliedAll(old(conn.View()), RepliesTo(httpCallback, d.requests), ws)
      ensures !(r.Bytes? && r.bytes != "") ==>
                && conn.View() == (if TcpConnection.Closes(r) then Closed(old(conn.View())) else old(conn.View()))
                && context.Value() == old(context.Value())
                && conn.inputBuffer.Contents() == old(conn.inputBuffer.Contents())
    {
      var deliver := conn.HandleRead(r);
      if deliver {
        OnMessage(conn, context, ws);
      }
    }
  }
}
