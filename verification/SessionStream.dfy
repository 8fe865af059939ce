/** Requests with bodies as a client pipelines them, and what the session makes of them. */
module SessionStream {
  import opened Text
  import opened RequestText
  import opened HttpParser
  import opened HttpPrint
  import opened SessionSpec
  import SessionRuns

  // ----- where a printed head ends -----

  /** A line that is not empty is not where a head ends, unless an empty line follows. */
  lemma {:induction false} HeadLengthAfterLine(line: string, rest: string)
    requires OneLine(line) && line != ""
    ensures HeadLength(line + CRLF + rest) ==
            if CRLF <= rest then Some(|line| + 4)
            else match HeadLength(rest) case None => None case Some(n) => Some(|line| + 2 + n)
    decreases |line|
  {
    var s := line + CRLF + rest;
    assert s[|line|] == '\r' && s[|line| + 1] == '\n';
    assert !IsBlankLineAt(s, 0) by { if |line| == 1 { assert s[1] == '\r'; } else { assert s[1] == line[1]; } }
    if |line| > 1 {
      assert s[1..] == line[1..] + CRLF + rest;
      HeadLengthAfterLine(line[1..], rest);
    } else {
      assert s[1..] == CRLF + rest;
      HeadLengthAfterBreak(rest);
    }
  }

  lemma HeadLengthAfterBreak(rest: string)
    ensures HeadLength(CRLF + rest) ==
            if CRLF <= rest then Some(4)
            else match HeadLength(rest) case None => None case Some(n) => Some(2 + n)
  {
    var s := CRLF + rest;
    assert s[1..] == ['\n'] + rest && s[1..][1..] == rest;
    if CRLF <= rest {
      assert IsBlankLineAt(s, 0) by { assert rest[0] == CRLF[0] && rest[1] == CRLF[1]; }
    } else {
      assert |rest| >= 2 ==> s[2] == rest[0] && s[3] == rest[1];
    }
  }

  lemma {:induction false} HeadLengthOfText(line: string, hs: seq<(string, string)>, rest: string)
    requires OneLine(line) && line != ""
    requires forall i :: 0 <= i < |hs| ==> OneLine(FieldLine(hs[i]))
    ensures HeadLength(HeadText(line, hs) + rest) == Some(|HeadText(line, hs)|)
    decreases |hs|
  {
    var more := HeaderText(hs) + CRLF + rest;
    assert HeadText(line, hs) + rest == line + CRLF + more;
    HeadLengthAfterLine(line, more);
    if hs == [] {
      assert more == CRLF + rest;
    } else {
      var next := FieldLine(hs[0]);
      assert more == HeadText(next, hs[1..]) + rest;
      assert !(CRLF <= more) by { assert |next| >= 2 && more[1] == next[1]; }
      HeadLengthOfText(next, hs[1..], rest);
    }
  }

  // ----- a stream of requests -----

  datatype Sent = Sent(head: Head, body: string) {
    function Text(): string { head.Print() + body }
  }

  function TextOf(xs: seq<Sent>): string {
    if xs == [] then "" else xs[0].Text() + TextOf(xs[1..])
  }

  /** A request the server accepts: its head is within the limits, and it announces its body. */
  predicate Acceptable(x: Sent, config: Config) {
    var m := HeaderMap(map[], x.head.headers);
    && Printable(x.head)
    && |x.head.Print()| <= config.maxHeaderBytes
    && LengthsOk(x.head.headers, config)
    && (x.head.version == "HTTP/1.1" || x.head.version == "HTTP/1.0")
    && (x.head.meth == "POST" && x.body != "" ==> IsAllowedContentType(GetOr(m, "content-type")))
    && LengthIn(m) == Some(|x.body|)
  }

  /** The exchange is about this request, the application has seen all of it, and the bytes written are
      its answer. */
  ghost predicate Carries(app: App, e: Exchange, x: Sent) {
    IsRequest(e.request, x) && e == Exchanged(app, e.request, true, Answer(app, e.request))
  }

  predicate IsRequest(req: Request, x: Sent) {
    && req.meth == x.head.meth && req.path == x.head.path && req.query == x.head.Query()
    && req.version == x.head.version && req.headers == HeaderMap(map[], x.head.headers)
    && req.body == x.body
  }

  /** Every request is answered, up to the first answer that closes. */
  ghost predicate Served(app: App, es: seq<Exchange>, xs: seq<Sent>) {
    && |es| <= |xs|
    && (forall i :: 0 <= i < |es| ==> Carries(app, es[i], xs[i]))
    && (forall i :: 0 <= i < |es| - 1 ==> !es[i].close)
    && (|es| < |xs| ==> es != [] && es[|es| - 1].close)
  }

  lemma PrintedHeadEnds(h: Head, rest: string)
    requires Printable(h)
    ensures HeadLength(h.Print() + rest) == Some(|h.Print()|)
  {
    assert forall i :: 0 <= i < |h.headers| ==> PrintableHeader(h.headers[i]);
    HeadLengthOfText(h.FirstLine(), h.headers, rest);
  }

  lemma AcceptableParses(x: Sent, config: Config)
    requires Acceptable(x, config)
    ensures var r := ParseHead(x.head.Print(), config);
            && r.status == Ok && r.request.contentLength == |x.body|
            && IsRequest(r.request.(body := x.body), x)
  {
    PrintThenParse(x.head, config);
    ParsedAgrees(x.head.Print(), config);
  }

  /** The text behind a complete request divides where it should. */
  lemma TextDivides(x: Sent, rest: string)
    requires Printable(x.head)
    ensures var s, n := x.Text() + rest, |x.head.Print()|;
            && HeadLength(s) == Some(n) && s[..n] == x.head.Print() && s[n..] == x.body + rest
  {
    var head := x.head.Print();
    Assoc(head, x.body, rest);
    PrintedHeadEnds(x.head, x.body + rest);
  }

  lemma BodyServed(app: App, config: Config, req: Request, body: string, rest: string)
    requires req.contentLength == |body|
    ensures var es := ReferenceBody(app, config, req, body + rest);
            && es != [] && es[0] == Exchanged(app, req.(body := body), true, Answer(app, req.(body := body)))
            && es[1..] == if es[0].close then [] else Reference(app, config, rest)
  {
    assert (body + rest)[..|body|] == body && (body + rest)[|body|..] == rest;
  }

  lemma FirstServed(app: App, config: Config, x: Sent, rest: string)
    requires Acceptable(x, config)
    ensures var es := Reference(app, config, x.Text() + rest);
            && es != [] && Carries(app, es[0], x)
            && es[1..] == if es[0].close then [] else Reference(app, config, rest)
  {
    TextDivides(x, rest);
    AcceptableParses(x, config);
    var req := ParseHead(x.head.Print(), config).request;
    BodyServed(app, config, req, x.body, rest);
    assert Reference(app, config, x.Text() + rest) == ReferenceBody(app, config, req, x.body + rest);
  }

  lemma {:induction false} AllServed(app: App, config: Config, xs: seq<Sent>)
    requires forall i :: 0 <= i < |xs| ==> Acceptable(xs[i], config)
    ensures Served(app, Reference(app, config, TextOf(xs)), xs)
    decreases |xs|
  {
    if xs == [] {
    } else {
      FirstServed(app, config, xs[0], TextOf(xs[1..]));
      AllServed(app, config, xs[1..]);
      ServedCons(app, Reference(app, config, TextOf(xs)), xs);
    }
  }

  lemma ServedCons(app: App, es: seq<Exchange>, xs: seq<Sent>)
    requires xs != [] && es != [] && Carries(app, es[0], xs[0])
    requires if es[0].close then es[1..] == [] else Served(app, es[1..], xs[1..])
    ensures Served(app, es, xs)
  {
    forall i | 0 <= i < |es| ensures Carries(app, es[i], xs[i]) {
      if i > 0 { assert es[i] == es[1..][i - 1] && xs[i] == xs[1..][i - 1]; }
    }
    forall i | 0 <= i < |es| - 1 ensures !es[i].close {
      if i > 0 { assert es[i] == es[1..][i - 1]; }
    }
    if 1 < |es| { assert es[|es| - 1] == es[1..][|es| - 2]; }
  }

  /** However the bytes of a pipeline arrive, each request reaches the application whole, in order and
      once; a session that is neither cut off nor left waiting has answered every one of them, up to the
      first answer that closes. */
  lemma PipelineServed(app: App, config: Config, xs: seq<Sent>, events: seq<Event>, t: Session)
    requires forall i :: 0 <= i < |xs| ==> Acceptable(xs[i], config)
    requires Runs(app, config, Start(TextOf(xs)), events, t)
    ensures |t.exchanges| <= |xs| && forall i :: 0 <= i < |t.exchanges| ==> Carries(app, t.exchanges[i], xs[i])
    ensures t.phase == Writing(true) || (t.phase == ReadingHead && HeadLength(t.buffer + t.unread).None?) ==>
              Served(app, t.exchanges, xs)
  {
    AllServed(app, config, xs);
    SessionRuns.SessionFollowsReference(app, config, TextOf(xs), events, t);
    var es := Reference(app, config, TextOf(xs));
    assert forall i :: 0 <= i < |t.exchanges| ==> t.exchanges[i] == es[i];
    if t.phase == Writing(true) || (t.phase == ReadingHead && HeadLength(t.buffer + t.unread).None?) {
      SessionRuns.SessionCompletes(app, config, TextOf(xs), events, t);
    }
  }
}
