/** One HTTP session of the Asio server: a stream buffer between the socket and the parser, heads and
    bodies framed by it, one response per request, and keep-alive. */
module SessionSpec {
  import opened Text
  import opened HttpParser

  /** `headers` is in the iteration order of the source's map. */
  datatype Response = Response(statusCode: nat, statusMessage: string, contentType: string,
                               headers: seq<(string, string)>, body: string, close: bool)

  const FRESH_RESPONSE := Response(200, "OK", "text/html; charset=utf-8", [], "", false)

  function ReasonPhrase(code: nat): string {
    match code
    case 200 => "OK"
    case 201 => "Created"
    case 204 => "No Content"
    case 400 => "Bad Request"
    case 403 => "Forbidden"
    case 404 => "Not Found"
    case 405 => "Method Not Allowed"
    case 413 => "Payload Too Large"
    case 415 => "Unsupported Media Type"
    case 431 => "Request Header Fields Too Large"
    case 500 => "Internal Server Error"
    case _ => "Unknown"
  }

  function StatusCodeFor(status: Status): nat {
    match status
    case Ok => 200
    case BadRequest => 400
    case HeaderTooLarge => 431
    case BodyTooLarge => 413
    case UnsupportedMediaType => 415
  }

  function StatusLine(r: Response): string { "HTTP/1.1 " + Decimal(r.statusCode) + " " + r.statusMessage }

  /** The fields every response carries. */
  function OwnFields(r: Response): seq<(string, string)> {
    [("Connection", if r.close then "close" else "keep-alive"), ("Content-Type", r.contentType),
     ("Content-Length", Decimal(|r.body|))]
  }

  function SerializeResponse(r: Response, skipBody: bool): string {
    HeadText(StatusLine(r), OwnFields(r) + r.headers) + if skipBody then "" else r.body
  }

  /** The application edits a response for a request, and may throw on the way. `errorPage` renders
      the built-in error documents; `serialize` is SerializeResponse in the session object. */
  datatype App = App(handler: Option<(Request, Response) -> (Response, bool)>,
                     errorPage: (nat, string) -> string,
                     serialize: (Response, bool) -> string)

  function ErrorResponse(app: App, r: Response, code: nat, message: string): Response {
    r.(statusCode := code, statusMessage := ReasonPhrase(code),
       body := app.errorPage(code, message), contentType := "text/html; charset=utf-8")
  }

  function ParseErrorResponse(app: App, status: Status, message: string): Response {
    ErrorResponse(app, FRESH_RESPONSE, StatusCodeFor(status), message).(close := true)
  }

  /** What handleRequest answers once the body has been accepted. */
  function Answer(app: App, req: Request): Response {
    var start := FRESH_RESPONSE.(close := !req.keepAlive);
    var r := match app.handler
             case None => ErrorResponse(app, start, 404, "no handler")
             case Some(f) =>
               var (made, threw) := f(req, start);
               if threw then ErrorResponse(app, made, 500, "internal error").(close := true) else made;
    if r.statusMessage == "" then r.(statusMessage := ReasonPhrase(r.statusCode)) else r
  }

  lemma AlwaysAReason(code: nat)
    ensures ReasonPhrase(code) != ""
  {}

  /** The handler throws on this request. */
  predicate Throws(app: App, req: Request) {
    app.handler.Some? && app.handler.value(req, FRESH_RESPONSE.(close := !req.keepAlive)).1
  }

  lemma ThrownAnswer(app: App, req: Request)
    requires Throws(app, req)
    ensures Answer(app, req).statusCode == 500 && Answer(app, req).close
  {}

  // ----- the end of a head -----

  predicate IsBlankLineAt(s: string, i: nat) {
    i + 4 <= |s| && s[i] == '\r' && s[i + 1] == '\n' && s[i + 2] == '\r' && s[i + 3] == '\n'
  }

  /** The length of the head at the front, up to and including its blank line. */
  function HeadLength(s: string): (r: Option<nat>)
    ensures r.Some? ==> 4 <= r.value <= |s|
  {
    if |s| < 4 then None
    else if IsBlankLineAt(s, 0) then Some(4)
    else
      match HeadLength(s[1..])
      case None => None
      case Some(n) => Some(n + 1)
  }

  lemma {:induction false} HeadLengthStable(a: string, b: string)
    requires HeadLength(a).Some?
    ensures HeadLength(a + b) == HeadLength(a)
  {
    if !IsBlankLineAt(a, 0) {
      HeadLengthStable(a[1..], b);
      assert (a + b)[1..] == a[1..] + b;
    }
  }

  // ----- the session as a state machine -----

  /** One request and the bytes written for it; `handled` when it reached the application. */
  datatype Exchange = Exchange(request: Request, handled: bool, text: string, close: bool)

  datatype Phase =
    | ReadingHead
    | ReadingBody(request: Request, body: string)
    | Writing(close: bool)
    | Closed

  datatype Session = Session(
    unread: string,            // sent by the peer, not yet taken from the socket
    buffer: string,            // the stream buffer
    consumed: string,          // everything taken out of the buffer, in order
    phase: Phase,
    exchanges: seq<Exchange>)

  function MaxBuffer(config: Config): nat { config.maxHeaderBytes + config.maxBodyBytes + 4 }

  function Start(stream: string): Session { Session(stream, "", "", ReadingHead, []) }

  function Exchanged(app: App, req: Request, handled: bool, r: Response): Exchange {
    Exchange(req, handled, app.serialize(r, req.meth == "HEAD"), r.close)
  }

  /** async_write of one response. */
  function Respond(app: App, s: Session, req: Request, handled: bool, r: Response): Session {
    s.(phase := Writing(r.close),
       exchanges := s.exchanges + [Exchanged(app, req, handled, r)])
  }

  function Consume(s: Session, n: nat): Session
    requires n <= |s.buffer|
  {
    s.(consumed := s.consumed + s.buffer[..n], buffer := s.buffer[n..])
  }

  function HandleRequest(app: App, config: Config, s: Session, req: Request, body: string): Session {
    var (status, full) := WithBody(req, body, config);
    if status != Ok then Respond(app, s, full, false, ParseErrorResponse(app, status, "bad body"))
    else Respond(app, s, full, true, Answer(app, full))
  }

  /** The rest of handleHead, with the head consumed and accepted. */
  function TakeBody(app: App, config: Config, s: Session, req: Request): Session {
    var already := if |s.buffer| < req.contentLength then |s.buffer| else req.contentLength;
    var body := s.buffer[..already];
    var s2 := Consume(s, already);
    if |body| < req.contentLength then s2.(phase := ReadingBody(req, body))
    else HandleRequest(app, config, s2, req, body)
  }

  function HandleHead(app: App, config: Config, s: Session, length: nat): Session
    requires length <= |s.buffer|
  {
    if length > config.maxHeaderBytes then
      Respond(app, s, EMPTY, false, ParseErrorResponse(app, HeaderTooLarge, "header limit"))
    else
      var parsed := ParseHead(s.buffer[..length], config);
      var s1 := Consume(s, length);
      if parsed.status != Ok then
        Respond(app, s1, parsed.request, false, ParseErrorResponse(app, parsed.status, parsed.message))
      else
        TakeBody(app, config, s1, parsed.request)
  }

  /** The asynchronous operations completing. HeadRead is async_read_until with `taken` bytes read from
      the socket; BodyRead is async_read, which stops when it has all it wants or the buffer is full. */
  datatype Event = HeadRead(taken: nat) | BodyRead | WriteDone | Failed

  function BodyTake(config: Config, s: Session): nat
    requires s.phase.ReadingBody? && |s.phase.body| <= s.phase.request.contentLength
    requires |s.buffer| <= MaxBuffer(config)
  {
    var remaining := s.phase.request.contentLength - |s.phase.body|;
    var room := MaxBuffer(config) - |s.buffer|;
    if remaining <= room then remaining else room
  }

  predicate Enabled(config: Config, s: Session, e: Event) {
    match e
    case HeadRead(k) =>
      && s.phase == ReadingHead && k <= |s.unread|
      && |s.buffer| + k <= MaxBuffer(config)
      && HeadLength(s.buffer + s.unread[..k]).Some?
      && (HeadLength(s.buffer).Some? ==> k == 0)
    case BodyRead =>
      && s.phase.ReadingBody? && |s.phase.body| <= s.phase.request.contentLength
      && |s.buffer| <= MaxBuffer(config) && BodyTake(config, s) <= |s.unread|
    case WriteDone => s.phase.Writing?
    case Failed => s.phase != Closed
  }

  function Apply(app: App, config: Config, s: Session, e: Event): Session
    requires Enabled(config, s, e)
  {
    match e
    case HeadRead(k) =>
      var s' := s.(buffer := s.buffer + s.unread[..k], unread := s.unread[k..]);
      HandleHead(app, config, s', HeadLength(s'.buffer).value)
    case BodyRead =>
      var n := BodyTake(config, s);
      var s' := s.(buffer := s.buffer + s.unread[..n], unread := s.unread[n..]);
      HandleRequest(app, config, Consume(s', n), s.phase.request, s.phase.body + s'.buffer[..n])
    case WriteDone => s.(phase := if s.phase.close then Closed else ReadingHead)
    case Failed => s.(phase := Closed)
  }

  predicate Runs(app: App, config: Config, s: Session, events: seq<Event>, t: Session)
    decreases |events|
  {
    if events == [] then s == t
    else Enabled(config, s, events[0]) && Runs(app, config, Apply(app, config, s, events[0]), events[1..], t)
  }

  lemma {:induction false} RunsSnoc(app: App, config: Config, s: Session, events: seq<Event>, t: Session, e: Event)
    requires Runs(app, config, s, events, t) && Enabled(config, t, e)
    ensures Runs(app, config, s, events + [e], Apply(app, config, t, e))
    decreases |events|
  {
    hide Enabled, Apply;
    var u := Apply(app, config, t, e);
    if events == [] {
      assert (events + [e])[1..] == [] && Runs(app, config, u, [], u);
    } else {
      assert (events + [e])[1..] == events[1..] + [e];
      RunsSnoc(app, config, Apply(app, config, s, events[0]), events[1..], t, e);
    }
  }

  // ----- the reference: the whole stream at once -----

  /** The exchanges a stream leads to, if nothing fails: head, body of the announced length, answer,
      and on with the rest unless the answer closes. */
  function Reference(app: App, config: Config, stream: string): seq<Exchange>
    decreases |stream|, 1
  {
    match HeadLength(stream)
    case None => []
    case Some(n) =>
      if n > MaxBuffer(config) then []
      else if n > config.maxHeaderBytes then
        [ErrorExchange(app, EMPTY, HeaderTooLarge, "header limit")]
      else
        var parsed := ParseHead(stream[..n], config);
        if parsed.status != Ok then [ErrorExchange(app, parsed.request, parsed.status, parsed.message)]
        else ReferenceBody(app, config, parsed.request, stream[n..])
  }

  function ReferenceBody(app: App, config: Config, req: Request, data: string): seq<Exchange>
    decreases |data|, 2
  {
    if |data| < req.contentLength then []
    else
      var full := req.(body := data[..req.contentLength]);
      var r := Answer(app, full);
      var e := Exchanged(app, full, true, r);
      if r.close then [e] else [e] + Reference(app, config, data[req.contentLength..])
  }

  function ErrorExchange(app: App, req: Request, status: Status, message: string): Exchange {
    Exchanged(app, req, false, ParseErrorResponse(app, status, message))
  }
}
