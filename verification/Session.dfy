/** The session object. Its completion handlers are the steps of SessionSpec. */
module Session {
  import opened Text
  import opened HttpParser
  import opened SessionSpec
  import SessionRuns

  /** The status line, the response's own fields, its headers one after the other, an empty line, and
      the body unless it is skipped. */
  method Serialize(r: Response, skipBody: bool) returns (data: string)
    ensures data == SerializeResponse(r, skipBody)
  {
    var own := HeaderLines(OwnFields(r));
    var headers := HeaderLines(r.headers);
    HeaderTextAppend(OwnFields(r), r.headers);
    data := StatusLine(r) + CRLF + (own + headers + CRLF);
    data := data + if skipBody then "" else r.body;
  }

  method HeaderLines(hs: seq<(string, string)>) returns (text: string)
    ensures text == HeaderText(hs)
  {
    text := "";
    for i := 0 to |hs|
      invariant text + HeaderText(hs[i..]) == HeaderText(hs)
    {
      var line := hs[i].0 + ": " + hs[i].1 + CRLF;
      assert HeaderText(hs[i..]) == line + HeaderText(hs[i + 1..]);
      Assoc(text, line, HeaderText(hs[i + 1..]));
      text := text + line;
    }
    assert hs[|hs|..] == [] && text + "" == text;
  }

  class Session {
    const app: App
    const config: Config
    var socket: string             // sent by the peer, not yet read
    var buffer: string             // boost::asio::streambuf
    var consumed: string
    var phase: Phase
    var exchanges: seq<Exchange>

    function View(): SessionSpec.Session
      reads this
    {
      SessionSpec.Session(socket, buffer, consumed, phase, exchanges)
    }

    /** Responses are put on the wire as SerializeResponse has them. */
    ghost predicate Serializes() {
      forall r, skip :: app.serialize(r, skip) == SerializeResponse(r, skip)
    }

    constructor (handler: Option<(Request, Response) -> (Response, bool)>, errorPage: (nat, string) -> string,
                 config: Config, stream: string)
      ensures View() == Start(stream) && this.config == config && Serializes()
    {
      this.app := App(handler, errorPage, SerializeResponse);
      this.config := config;
      socket, buffer, consumed, phase, exchanges := stream, "", "", ReadingHead, [];
    }

    /** buffers_begin(data), data + n, followed by consume(n). */
    method Take(n: nat) returns (bytes: string)
      requires n <= |buffer|
      modifies this`buffer, this`consumed
      ensures bytes == old(buffer)[..n] && View() == Consume(old(View()), n)
    {
      bytes := buffer[..n];
      consumed := consumed + bytes;
      buffer := buffer[n..];
    }

    /** The socket delivers n more bytes into the buffer. */
    method Receive(n: nat)
      requires n <= |socket|
      modifies this`socket, this`buffer
      ensures buffer == old(buffer) + old(socket)[..n] && socket == old(socket)[n..]
    {
      buffer := buffer + socket[..n];
      socket := socket[n..];
    }

    method WriteResponse(request: Request, handled: bool, response: Response)
      requires Serializes()
      modifies this`phase, this`exchanges
      ensures View() == Respond(app, old(View()), request, handled, response)
    {
      var skipBody := request.meth == "HEAD";
      var data := Serialize(response, skipBody);
      exchanges := exchanges + [Exchange(request, handled, data, response.close)];
      phase := Writing(response.close);
    }

    /** The answer has a reason phrase in any case. A handler that throws costs the connection; without a
        handler the request is not found; otherwise the handler's response is taken as it is, but for a
        missing reason phrase. */
    method CallHandler(request: Request) returns (response: Response)
      ensures response.statusMessage != ""
      ensures app.handler.None? ==>
                response == Response(404, "Not Found", "text/html; charset=utf-8", [],
                                     app.errorPage(404, "no handler"), !request.keepAlive)
      ensures app.handler.Some? ==>
                var start := Response(200, "OK", "text/html; charset=utf-8", [], "", !request.keepAlive);
                var (made, threw) := app.handler.value(request, start);
                if threw then
                  response == Response(500, "Internal Server Error", "text/html; charset=utf-8", made.headers,
                                       app.errorPage(500, "internal error"), true)
                else if made.statusMessage != "" then response == made
                else response == made.(statusMessage := ReasonPhrase(made.statusCode))
      ensures response == Answer(app, request)
    {
      response := FRESH_RESPONSE.(close := !request.keepAlive);
      match app.handler {
        case Some(f) =>
          var (made, threw) := f(request, response);
          response := made;
          if threw {
            response := ErrorResponse(app, response, 500, "internal error");
            response := response.(close := true);
          }
        case None =>
          response := ErrorResponse(app, response, 404, "no handler");
      }
      if response.statusMessage == "" {
        AlwaysAReason(response.statusCode);
        response := response.(statusMessage := ReasonPhrase(response.statusCode));
      }
    }

    method HandleRequest(request: Request, body: string)
      requires Serializes()
      modifies this`phase, this`exchanges
      ensures View() == SessionSpec.HandleRequest(app, config, old(View()), request, body)
    {
      var status, full := AssignRequestBody(request, body, config);
      if status != Ok {
        WriteResponse(full, false, ParseErrorResponse(app, status, "bad body"));
        return;
      }
      var response := CallHandler(full);
      WriteResponse(full, true, response);
    }

    method HandleHead(length: nat)
      requires Serializes()
      requires length <= |buffer|
      modifies this
      ensures View() == SessionSpec.HandleHead(app, config, old(View()), length)
    {
      if length > config.maxHeaderBytes {
        WriteResponse(EMPTY, false, ParseErrorResponse(app, HeaderTooLarge, "header limit"));
        return;
      }
      var rawHeaders := Take(length);
      var parsed := ParseHttpRequestHead(rawHeaders, config);
      if parsed.status != Ok {
        WriteResponse(parsed.request, false, ParseErrorResponse(app, parsed.status, parsed.message));
        return;
      }
      TakeBody(parsed.request);
    }

    /** What has arrived of the body; the request is handled when that is all of it. */
    method TakeBody(request: Request)
      requires Serializes()
      modifies this
      ensures View() == SessionSpec.TakeBody(app, config, old(View()), request)
    {
      var already := if |buffer| < request.contentLength then |buffer| else request.contentLength;
      var body := Take(already);
      if |body| < request.contentLength {
        phase := ReadingBody(request, body);
        return;
      }
      HandleRequest(request, body);
    }

    /** async_read_until has found a blank line after reading k bytes. */
    method OnHeadRead(k: nat)
      requires Serializes()
      requires Enabled(config, View(), HeadRead(k))
      modifies this
      ensures View() == Apply(app, config, old(View()), HeadRead(k))
    {
      Receive(k);
      HandleHead(HeadLength(buffer).value);
    }

    /** async_read has delivered what was missing of the body. */
    method OnBodyRead()
      requires Serializes()
      requires Enabled(config, View(), BodyRead)
      modifies this
      ensures View() == Apply(app, config, old(View()), BodyRead)
    {
      var n := BodyTake(config, View());
      Receive(n);
      var more := Take(n);
      HandleRequest(phase.request, phase.body + more);
    }

    /** async_write has completed. */
    method OnWritten()
      requires Enabled(config, View(), WriteDone)
      modifies this`phase
      ensures View() == Apply(app, config, old(View()), WriteDone)
    {
      if !phase.close {
        phase := ReadingHead;
        return;
      }
      phase := Closed;
    }

    /** Any operation has failed, or the peer is gone. */
    method OnFailed()
      requires Enabled(config, View(), Failed)
      modifies this`phase
      ensures View() == Apply(app, config, old(View()), Failed)
    {
      phase := Closed;
    }
  }

  /** One completion, after those that have led from `start` to here. One that makes no sense at the moment
      is passed over. */
  method Complete(s: Session, e: Event, ghost start: SessionSpec.Session, ghost before: seq<Event>)
      returns (ghost done: seq<Event>)
    requires s.Serializes() && Runs(s.app, s.config, start, before, s.View())
    modifies s
    ensures Runs(s.app, s.config, start, done, s.View())
    ensures done == before + if Enabled(s.config, old(s.View()), e) then [e] else []
  {
    done := before;
    if Enabled(s.config, s.View(), e) {
      RunsSnoc(s.app, s.config, start, before, s.View(), e);
      done := before + [e];
      match e
      case HeadRead(k) => s.OnHeadRead(k);
      case BodyRead => s.OnBodyRead();
      case WriteDone => s.OnWritten();
      case Failed => s.OnFailed();
    }
  }

  /** The session object over any sequence of completions: no byte of the stream is lost or read twice, the
      responses it has written are those of the reference, in order, each handled request has the body it
      announced, and nothing follows a response that closes; when nothing is left to read, or the closing
      response is being written, none is missing. */
  method Serve(s: Session, ghost stream: string, events: seq<Event>)
    requires s.Serializes() && s.View() == Start(stream)
    modifies s
    ensures s.consumed + s.buffer + s.socket == stream
    ensures s.exchanges <= Reference(s.app, s.config, stream)
    ensures forall i :: 0 <= i < |s.exchanges| && s.exchanges[i].handled ==>
              |s.exchanges[i].request.body| == s.exchanges[i].request.contentLength
    ensures forall i :: 0 <= i < |s.exchanges| - 1 ==> !s.exchanges[i].close
    ensures s.phase == Writing(true) || (s.phase == ReadingHead && HeadLength(s.buffer + s.socket).None?) ==>
              s.exchanges == Reference(s.app, s.config, stream)
  {
    hide Runs, Enabled, Apply, Reference, HeadLength;
    ghost var done: seq<Event> := [];
    RunsNone(s.app, s.config, Start(stream));
    for i := 0 to |events|
      invariant s.Serializes() && Runs(s.app, s.config, Start(stream), done, s.View())
    {
      done := Complete(s, events[i], Start(stream), done);
    }
    Reached(s.app, s.config, stream, done, s.View());
  }

  lemma RunsNone(app: App, config: Config, s: SessionSpec.Session)
    ensures Runs(app, config, s, [], s)
  {}

  lemma Reached(app: App, config: Config, stream: string, events: seq<Event>, t: SessionSpec.Session)
    requires Runs(app, config, Start(stream), events, t)
    ensures t.consumed + t.buffer + t.unread == stream
    ensures t.exchanges <= Reference(app, config, stream)
    ensures SessionRuns.BodiesExact(t) && SessionRuns.CloseIsLast(t)
    ensures t.phase == Writing(true) || (t.phase == ReadingHead && HeadLength(t.buffer + t.unread).None?) ==>
              t.exchanges == Reference(app, config, stream)
  {
    SessionRuns.SessionFollowsReference(app, config, stream, events, t);
    if t.phase == Writing(true) || (t.phase == ReadingHead && HeadLength(t.buffer + t.unread).None?) {
      SessionRuns.SessionCompletes(app, config, stream, events, t);
    }
  }
}
