/** The responses of the Asio server as a client reads them back. */
module ResponseStream {
  import opened Text
  import opened Ctype
  import opened HttpParser
  import opened HttpPrint
  import opened ResponseReader
  import opened SessionStream
  import SessionSpec

  // ----- what is written -----

  predicate PrintableResponse(r: SessionSpec.Response) {
    && OneLine(r.statusMessage) && Trimmed(r.contentType) && OneLine(r.contentType)
    && |r.body| < SIZE_MODULUS
    && forall i :: 0 <= i < |r.headers| ==> Neutral(r.headers[i])
  }

  /** The fields every response carries, before those of the application. */
  function Chain(word: string, ctype: string, n: nat, hs: seq<(string, string)>): seq<(string, string)> {
    [("Connection", word)] + ([("Content-Type", ctype)] + ([("Content-Length", Decimal(n))] + hs))
  }

  lemma ChainSays(close: bool, word: string, ctype: string, n: nat, hs: seq<(string, string)>)
    requires Lower(word) == if close then "close" else "keep-alive"
    requires n < SIZE_MODULUS && forall i :: 0 <= i < |hs| ==> Neutral(hs[i])
    ensures Says(TakeAll(NO_FIELDS, Chain(word, ctype, n, hs), UNLIMITED), Some(n), close)
  {
    var tail := [("Content-Length", Decimal(n))] + hs;
    var s1 := ConnectionThen(close, word, [("Content-Type", ctype)] + tail);
    var s2 := TypeThen(s1, ctype, tail);
    var s3 := LengthThen(s2, n, hs);
    NeutralTaken(s3, hs);
  }

  lemma ChainPrintable(close: bool, ctype: string, n: nat, hs: seq<(string, string)>)
    requires PrintableValue(ctype) && n < SIZE_MODULUS && forall i :: 0 <= i < |hs| ==> Neutral(hs[i])
    ensures var fs := Chain(if close then "close" else "keep-alive", ctype, n, hs);
            forall i :: 0 <= i < |fs| ==> PrintableHeader(fs[i])
  {
    LengthReads(n);
    var word, l := if close then "close" else "keep-alive", Decimal(n);
    assert forall i :: 0 <= i < |hs| ==> Neutral(hs[i]) ==> PrintableHeader(hs[i]);
    LengthPrintable(l);
    PrintableCons(("Content-Length", l), hs);
    TypePrintable(ctype);
    PrintableCons(("Content-Type", ctype), [("Content-Length", l)] + hs);
    ConnectionPrintable(close);
    PrintableCons(("Connection", word), [("Content-Type", ctype)] + ([("Content-Length", l)] + hs));
  }

  lemma OwnFieldsAreChain(r: SessionSpec.Response)
    ensures SessionSpec.OwnFields(r) + r.headers ==
            Chain(if r.close then "close" else "keep-alive", r.contentType, |r.body|, r.headers)
  {}

  lemma OwnFieldsSay(r: SessionSpec.Response)
    requires PrintableResponse(r)
    ensures FieldsSay(SessionSpec.OwnFields(r) + r.headers, Some(|r.body|), r.close)
  {
    var word := if r.close then "close" else "keep-alive";
    WordsLower();
    OwnFieldsAreChain(r);
    ChainSays(r.close, word, r.contentType, |r.body|, r.headers);
    ChainPrintable(r.close, r.contentType, |r.body|, r.headers);
  }

  // ----- what a client reads -----

  function HeadOf(r: SessionSpec.Response): string {
    HeadText(SessionSpec.StatusLine(r), SessionSpec.OwnFields(r) + r.headers)
  }

  predicate Bodiless(r: SessionSpec.Response, toHead: bool) { toHead || NoBodyStatus(r.statusCode) }

  /** What is put behind the head, and what of it a client takes for the body. */
  function SentBody(r: SessionSpec.Response, toHead: bool): string { if toHead then "" else r.body }

  function ReadBody(r: SessionSpec.Response, toHead: bool): string { if Bodiless(r, toHead) then "" else r.body }

  function Expected(r: SessionSpec.Response, toHead: bool): Received {
    Received(HeadOf(r), ReadBody(r, toHead), r.close)
  }

  /** One response, with anything behind it: the client takes the whole body and nothing else, except that
      the body of a 1xx, 204 or 304 response is read as what follows it. */
  lemma ResponseRead(r: SessionSpec.Response, rest: string, heads: seq<bool>, ended: bool)
    requires PrintableResponse(r) && heads != []
    ensures ReadAll(SessionSpec.SerializeResponse(r, heads[0]) + rest, heads, ended) ==
            Cons(Expected(r, heads[0]),
                 ReadAll(if Bodiless(r, heads[0]) then SentBody(r, heads[0]) + rest else rest, heads[1..], ended))
  {
    var sent := SentBody(r, heads[0]);
    OwnFieldsSay(r);
    Assoc(HeadOf(r), sent, rest);
    MessageRead(SessionSpec.StatusLine(r), SessionSpec.OwnFields(r) + r.headers, Some(|r.body|), r.close,
                sent + rest, heads, ended);
    CodeOfStatusLine(r.statusCode, r.statusMessage);
    CodeMeans(r.statusCode);
    assert (r.body + rest)[..|r.body|] == r.body && (r.body + rest)[|r.body|..] == rest;
  }

  /** What a session has written, one response behind the other. */
  function WrittenText(es: seq<SessionSpec.Exchange>): string {
    if es == [] then "" else es[0].text + WrittenText(es[1..])
  }

  predicate ToHead(e: SessionSpec.Exchange) { e.request.meth == "HEAD" }

  function Heads(es: seq<SessionSpec.Exchange>): seq<bool> {
    if es == [] then [] else [ToHead(es[0])] + Heads(es[1..])
  }

  function AllExpected(app: SessionSpec.App, es: seq<SessionSpec.Exchange>): seq<Received> {
    if es == [] then []
    else [Expected(SessionSpec.Answer(app, es[0].request), ToHead(es[0]))] + AllExpected(app, es[1..])
  }

  /** A handled exchange, and its answer can be printed. */
  predicate Readable(app: SessionSpec.App, e: SessionSpec.Exchange) {
    var r := SessionSpec.Answer(app, e.request);
    PrintableResponse(r) && e.text == SessionSpec.SerializeResponse(r, ToHead(e))
  }

  /** The answer has no body where a client does not look for one. */
  predicate Framed(app: SessionSpec.App, e: SessionSpec.Exchange) {
    var r := SessionSpec.Answer(app, e.request); SentBody(r, ToHead(e)) == ReadBody(r, ToHead(e))
  }

  lemma FramedIff(app: SessionSpec.App, e: SessionSpec.Exchange)
    ensures var r := SessionSpec.Answer(app, e.request);
            Framed(app, e) <==> (!ToHead(e) && NoBodyStatus(r.statusCode) ==> r.body == "")
  {}

  predicate AllFramed(app: SessionSpec.App, es: seq<SessionSpec.Exchange>) {
    forall i :: 0 <= i < |es| ==> Framed(app, es[i])
  }

  lemma {:induction false} FramedResponsesRead(app: SessionSpec.App, es: seq<SessionSpec.Exchange>, ended: bool)
    requires forall i :: 0 <= i < |es| ==> Readable(app, es[i])
    requires AllFramed(app, es)
    ensures ReadAll(WrittenText(es), Heads(es), ended) == Reading(AllExpected(app, es), "")
  {
    if es == [] {
    } else {
      assert Readable(app, es[0]) && Framed(app, es[0]);
      var rest := WrittenText(es[1..]);
      ResponseRead(SessionSpec.Answer(app, es[0].request), rest, Heads(es), ended);
      EmptyLeft(rest);
      FramedResponsesRead(app, es[1..], ended);
    }
  }

  /** Fewer bytes are expected than written, unless every answer is framed. */
  lemma OneExpected(app: SessionSpec.App, e: SessionSpec.Exchange)
    requires Readable(app, e)
    ensures var m := Expected(SessionSpec.Answer(app, e.request), ToHead(e));
            |m.head| + |m.body| <= |e.text| && (|m.head| + |m.body| == |e.text| <==> Framed(app, e))
  {}

  lemma {:induction false} ExpectedBytes(app: SessionSpec.App, es: seq<SessionSpec.Exchange>)
    requires forall i :: 0 <= i < |es| ==> Readable(app, es[i])
    ensures |BytesOf(AllExpected(app, es))| <= |WrittenText(es)|
    ensures |BytesOf(AllExpected(app, es))| == |WrittenText(es)| ==> AllFramed(app, es)
  {
    hide Expected, Readable, Framed;
    if es == [] {
    } else {
      OneExpected(app, es[0]);
      ExpectedBytes(app, es[1..]);
      assert AllExpected(app, es)[1..] == AllExpected(app, es[1..]);
      forall i | 0 <= i < |es| && |BytesOf(AllExpected(app, es))| == |WrittenText(es)| ensures Framed(app, es[i]) {
        if i > 0 { assert es[i] == es[1..][i - 1]; }
      }
    }
  }

  /** Any number of responses in a row are read as they were sent, with no byte left over, if and only if
      none with a 1xx, 204 or 304 status has a body; answers to HEAD included. */
  lemma ResponsesReadIff(app: SessionSpec.App, es: seq<SessionSpec.Exchange>, ended: bool)
    requires forall i :: 0 <= i < |es| ==> Readable(app, es[i])
    ensures ReadAll(WrittenText(es), Heads(es), ended) == Reading(AllExpected(app, es), "") <==> AllFramed(app, es)
  {
    if AllFramed(app, es) {
      FramedResponsesRead(app, es, ended);
    } else {
      ReadingConserves(WrittenText(es), Heads(es), ended);
      ExpectedBytes(app, es);
      assert BytesOf(AllExpected(app, es)) + "" == BytesOf(AllExpected(app, es));
    }
  }

  /** From end to end: a client that has pipelined requests reads back, from what the session has written
      so far, the application's answers to the first of them, in order, each body whole and no more; if and
      only if the application gives no body to a status that has none. */
  lemma PipelineReadIff(app: SessionSpec.App, config: Config, xs: seq<Sent>, events: seq<SessionSpec.Event>,
                        t: SessionSpec.Session, ended: bool)
    requires forall i :: 0 <= i < |xs| ==> Acceptable(xs[i], config)
    requires SessionSpec.Runs(app, config, SessionSpec.Start(TextOf(xs)), events, t)
    requires forall r, skip :: app.serialize(r, skip) == SessionSpec.SerializeResponse(r, skip)
    requires forall i :: 0 <= i < |t.exchanges| ==> PrintableResponse(SessionSpec.Answer(app, t.exchanges[i].request))
    ensures |t.exchanges| <= |xs| && forall i :: 0 <= i < |t.exchanges| ==> IsRequest(t.exchanges[i].request, xs[i])
    ensures ReadAll(WrittenText(t.exchanges), Heads(t.exchanges), ended) == Reading(AllExpected(app, t.exchanges), "")
            <==> forall i :: 0 <= i < |t.exchanges| && xs[i].head.meth != "HEAD" ==>
                   var r := SessionSpec.Answer(app, t.exchanges[i].request); NoBodyStatus(r.statusCode) ==> r.body == ""
  {
    PipelineServed(app, config, xs, events, t);
    var es := t.exchanges;
    forall i | 0 <= i < |es|
      ensures Readable(app, es[i]) && (ToHead(es[i]) <==> xs[i].head.meth == "HEAD")
      ensures var r := SessionSpec.Answer(app, es[i].request);
              Framed(app, es[i]) <==> (xs[i].head.meth != "HEAD" && NoBodyStatus(r.statusCode) ==> r.body == "")
    {
      assert Carries(app, es[i], xs[i]);
      FramedIff(app, es[i]);
    }
    ResponsesReadIff(app, es, ended);
  }
}
