/** What a client is told when its request is refused. */
module SessionErrors {
  import opened Text
  import opened HttpParser
  import opened SessionSpec
  import SessionRuns

  /** The status line for every status of the parser. */
  function ErrorLine(status: Status): string {
    match status
    case Ok => "HTTP/1.1 " + "200" + " " + "OK"
    case BadRequest => "HTTP/1.1 " + "400" + " " + "Bad Request"
    case HeaderTooLarge => "HTTP/1.1 " + "431" + " " + "Request Header Fields Too Large"
    case BodyTooLarge => "HTTP/1.1 " + "413" + " " + "Payload Too Large"
    case UnsupportedMediaType => "HTTP/1.1 " + "415" + " " + "Unsupported Media Type"
  }

  lemma Line200()
    ensures "HTTP/1.1 " + Decimal(200) + " " + ReasonPhrase(200) == ErrorLine(Ok)
  {
    assert Decimal(20) == Decimal(2) + "0" && Decimal(200) == Decimal(20) + "0";
    assert Decimal(200) == "200";
  }

  lemma Line400()
    ensures "HTTP/1.1 " + Decimal(400) + " " + ReasonPhrase(400) == ErrorLine(BadRequest)
  {
    assert Decimal(40) == Decimal(4) + "0" && Decimal(400) == Decimal(40) + "0";
    assert Decimal(400) == "400";
  }

  lemma Line413()
    ensures "HTTP/1.1 " + Decimal(413) + " " + ReasonPhrase(413) == ErrorLine(BodyTooLarge)
  {
    assert Decimal(41) == Decimal(4) + "1" && Decimal(413) == Decimal(41) + "3";
    assert Decimal(413) == "413";
  }

  lemma Line415()
    ensures "HTTP/1.1 " + Decimal(415) + " " + ReasonPhrase(415) == ErrorLine(UnsupportedMediaType)
  {
    assert Decimal(41) == Decimal(4) + "1" && Decimal(415) == Decimal(41) + "5";
    assert Decimal(415) == "415";
  }

  lemma Line431()
    ensures "HTTP/1.1 " + Decimal(431) + " " + ReasonPhrase(431) == ErrorLine(HeaderTooLarge)
  {
    assert Decimal(43) == Decimal(4) + "3" && Decimal(431) == Decimal(43) + "1";
    assert Decimal(431) == "431";
  }

  const REASONS := map[200 := "OK", 201 := "Created", 204 := "No Content", 400 := "Bad Request",
                       403 := "Forbidden", 404 := "Not Found", 405 := "Method Not Allowed",
                       413 := "Payload Too Large", 415 := "Unsupported Media Type",
                       431 := "Request Header Fields Too Large", 500 := "Internal Server Error"]

  /** These are the reason phrases; any other code has none of its own. */
  lemma Reasons(code: nat)
    ensures ReasonPhrase(code) == if code in REASONS then REASONS[code] else "Unknown"
  {}

  /** The text of a response, field by field. */
  lemma ResponseText(r: Response, skipBody: bool)
    ensures SerializeResponse(r, skipBody) ==
            "HTTP/1.1 " + Decimal(r.statusCode) + " " + r.statusMessage + "\r\n"
            + ((if r.close then "Connection: close\r\n" else "Connection: keep-alive\r\n")
               + ("Content-Type: " + r.contentType + "\r\n")
               + ("Content-Length: " + Decimal(|r.body|) + "\r\n")
               + HeaderText(r.headers) + "\r\n")
            + if skipBody then "" else r.body
  {
    hide Decimal, HeaderText;
    var a := [("Connection", if r.close then "close" else "keep-alive")];
    var b, c := [("Content-Type", r.contentType)], [("Content-Length", Decimal(|r.body|))];
    assert OwnFields(r) == a + b + c;
    HeaderTextAppend(a + b + c, r.headers);
    HeaderTextAppend(a + b, c);
    HeaderTextAppend(a, b);
    OneField("Connection", "close");
    OneField("Connection", "keep-alive");
    OneField("Content-Type", r.contentType);
    OneField("Content-Length", Decimal(|r.body|));
    FixedLines();
  }

  lemma FixedLines()
    ensures "Connection" + ": " + "close" + "\r\n" == "Connection: close\r\n"
    ensures "Connection" + ": " + "keep-alive" + "\r\n" == "Connection: keep-alive\r\n"
    ensures "Content-Length" + ": " == "Content-Length: " && "Content-Type" + ": " == "Content-Type: "
  {}

  lemma OneField(name: string, value: string)
    ensures HeaderText([(name, value)]) == name + ": " + value + "\r\n"
  {
    assert [(name, value)][1..] == [];
  }

  lemma ErrorStatusLine(app: App, status: Status, message: string)
    ensures var r := ParseErrorResponse(app, status, message);
            && StatusLine(r) == ErrorLine(status) && r.close && r.headers == []
            && r.contentType == "text/html; charset=utf-8" && r.body == app.errorPage(r.statusCode, message)
  {
    hide Decimal, ReasonPhrase, ErrorLine;
    match status
    case Ok => Line200();
    case BadRequest => Line400();
    case BodyTooLarge => Line413();
    case UnsupportedMediaType => Line415();
    case HeaderTooLarge => Line431();
  }

  lemma TextStarts(r: Response, skipBody: bool)
    requires r.close
    ensures StatusLine(r) + CRLF + ("Connection: close" + CRLF) <= SerializeResponse(r, skipBody)
  {
    hide StatusLine;
    var fields := OwnFields(r) + r.headers;
    assert fields[0] == ("Connection", "close");
    assert FieldLine(("Connection", "close")) == "Connection: close";
    Starts(StatusLine(r), "Connection: close", fields, if skipBody then "" else r.body);
  }

  lemma Starts(line: string, field: string, fields: seq<(string, string)>, body: string)
    requires fields != [] && FieldLine(fields[0]) == field
    ensures line + CRLF + (field + CRLF) <= HeadText(line, fields) + body
  {
    hide FieldLine;
    var rest := HeaderText(fields[1..]);
    assert line + CRLF + (((field + CRLF) + rest) + CRLF) + body == line + CRLF + (field + CRLF) + (rest + CRLF + body);
  }

  /** The status of the head at the front of a stream. */
  function FrontStatus(config: Config, stream: string, n: nat): Status
    requires n <= |stream|
  {
    if n > config.maxHeaderBytes then HeaderTooLarge else ParseHead(stream[..n], config).status
  }

  ghost predicate Tells(e: Exchange, status: Status) {
    && !e.handled && e.close
    && ErrorLine(status) + CRLF + ("Connection: close" + CRLF) <= e.text
  }

  /** A head that is refused is answered with the line for its status, the application is not asked, and the
      connection ends: in every run, that answer is the only thing that is ever written. A head that does not
      fit the stream buffer is not answered at all. */
  lemma RefusedHeadIsTold(app: App, config: Config, stream: string, events: seq<Event>, t: Session, n: nat)
    requires forall r, skip :: app.serialize(r, skip) == SerializeResponse(r, skip)
    requires HeadLength(stream) == Some(n) && FrontStatus(config, stream, n) != Ok
    requires Runs(app, config, Start(stream), events, t)
    ensures |t.exchanges| <= if n <= config.maxHeaderBytes + config.maxBodyBytes + 4 then 1 else 0
    ensures |t.exchanges| == 1 ==> Tells(t.exchanges[0], FrontStatus(config, stream, n))
  {
    hide ParseHead, Runs, ParseErrorResponse, SerializeResponse, ErrorLine;
    SessionRuns.SessionFollowsReference(app, config, stream, events, t);
    var all := Reference(app, config, stream);
    var status := FrontStatus(config, stream, n);
    var message := if n > config.maxHeaderBytes then "header limit" else ParseHead(stream[..n], config).message;
    ErrorStatusLine(app, status, message);
    var r := ParseErrorResponse(app, status, message);
    TextStarts(r, true);
    TextStarts(r, false);
    assert |all| == if n <= MaxBuffer(config) then 1 else 0;
    if |t.exchanges| == 1 { assert t.exchanges[0] == all[0]; }
  }
}
