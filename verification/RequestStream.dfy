/** Requests as a client writes them, one behind the other, and what the epoll server makes of them
    however the stream is cut. */
module RequestStream {
  import opened Text
  import opened HttpContext
  import opened RequestText
  import opened Segmentation

  predicate PrintableHeader(h: (string, string)) {
    OneLine(h.0) && Without(h.0, ':') && OneLine(h.1) && NoBlankEnds(h.1)
  }

  predicate Printable(h: Head) {
    && OneLine(h.meth) && Without(h.meth, ' ')
    && OneLine(h.Target()) && Without(h.Target(), ' ') && Without(h.path, '?')
    && OneLine(h.version)
    && forall i :: 0 <= i < |h.headers| ==> PrintableHeader(h.headers[i])
  }

  function PrintAll(hs: seq<Head>): string {
    if hs == [] then "" else hs[0].Print() + PrintAll(hs[1..])
  }

  /** Names as they are written, the last value of each. */
  function HeaderMap(m: map<string, string>, hs: seq<(string, string)>): map<string, string>
    decreases |hs|
  {
    if hs == [] then m else HeaderMap(m[hs[0].0 := hs[0].1], hs[1..])
  }

  function Meaning(h: Head): Request {
    Request(MethodOf(h.meth), h.path, h.Query(),
            VersionOf(h.version), HeaderMap(map[], h.headers))
  }

  function Meanings(hs: seq<Head>): seq<Request> {
    if hs == [] then [] else [Meaning(hs[0])] + Meanings(hs[1..])
  }

  lemma LinePrinted(line: string, rest: string)
    requires OneLine(line)
    ensures var s := line + CRLF + rest;
            FindCRLF(s) == Some(|line|) && s[..|line|] == line && s[|line| + 2..] == rest
  {
    var s := line + CRLF + rest;
    FindCRLFIsFirst(s);
    assert IsCRLFAt(s, |line|);
    assert forall k: nat :: k < |line| ==> s[k] == line[k];
    assert forall k: nat :: k < |line| ==> !IsCRLFAt(s, k);
  }

  lemma FirstLineParses(h: Head)
    requires Printable(h)
    ensures RequestLine(EMPTY_REQUEST, h.FirstLine()) == (true, Meaning(h).(headers := map[]))
  {
    TargetSplit(h);
    FirstLineSplit(h.meth, h.Target(), h.version);
  }

  lemma FirstLineSplit(meth: string, target: string, version: string)
    requires Without(meth, ' ') && Without(target, ' ')
    ensures var line := meth + " " + target + " " + version; var sp := IndexOf(line, ' ');
            && sp < |line| && line[..sp] == meth
            && var rest := line[sp + 1..]; var sp2 := IndexOf(rest, ' ');
               sp2 < |rest| && rest[..sp2] == target && rest[sp2 + 1..] == version
  {
    var rest := target + [' '] + version;
    var line := meth + [' '] + rest;
    assert meth + " " + target + " " + version == line;
    IndexOfAfter(meth, ' ', rest);
    assert line[..|meth|] == meth && line[|meth| + 1..] == rest;
    IndexOfAfter(target, ' ', version);
    assert rest[..|target|] == target && rest[|target| + 1..] == version;
  }

  lemma HeaderParses(req: Request, h: (string, string))
    requires PrintableHeader(h)
    ensures HeaderLine(req, FieldLine(h)) == req.(headers := req.headers[h.0 := h.1])
  {
    var line := FieldLine(h);
    assert line == h.0 + [':'] + (" " + h.1);
    IndexOfAfter(h.0, ':', " " + h.1);
    assert line[..|h.0|] == h.0 && line[|h.0| + 1..] == " " + h.1;
    assert (" " + h.1)[1..] == h.1;
    assert TrimBlanks(h.1) == h.1;
  }

  lemma {:induction false} HeadersParse(req: Request, hs: seq<(string, string)>, rest: string)
    requires forall i :: 0 <= i < |hs| ==> PrintableHeader(hs[i])
    ensures Parse(Ctx(ExpectHeaders, req), HeaderText(hs) + (CRLF + rest)) ==
            Outcome(true, Ctx(GotAll, req.(headers := HeaderMap(req.headers, hs))), rest)
    decreases |hs|
  {
    if hs == [] {
      assert HeaderText(hs) + (CRLF + rest) == "" + CRLF + rest;
      LinePrinted("", rest);
    } else {
      var line, more := FieldLine(hs[0]), HeaderText(hs[1..]) + (CRLF + rest);
      assert HeaderText(hs) + (CRLF + rest) == line + CRLF + more;
      LinePrinted(line, more);
      HeaderParses(req, hs[0]);
      HeadersParse(req.(headers := req.headers[hs[0].0 := hs[0].1]), hs[1..], rest);
    }
  }

  /** A printed request parses to what it says, and not a byte behind it is touched. */
  lemma PrintThenParse(h: Head, rest: string)
    requires Printable(h)
    ensures Parse(START, h.Print() + rest) == Outcome(true, Ctx(GotAll, Meaning(h)), rest)
  {
    var more := HeaderText(h.headers) + (CRLF + rest);
    assert h.Print() + rest == h.FirstLine() + CRLF + more;
    LinePrinted(h.FirstLine(), more);
    FirstLineParses(h);
    HeadersParse(Meaning(h).(headers := map[]), h.headers, rest);
  }

  /** The method and the version of a parsed request, by what was written: three methods and two versions are
      known, letter by letter. */
  lemma MethodAndVersion(h: Head, rest: string)
    requires Printable(h)
    ensures var o := Parse(START, h.Print() + rest); var req := o.ctx.request;
            && o.got
            && (req.meth == Get <==> h.meth == "GET")
            && (req.meth == Post <==> h.meth == "POST")
            && (req.meth == Method.Head <==> h.meth == "HEAD")
            && (req.meth == Invalid <==> h.meth != "GET" && h.meth != "POST" && h.meth != "HEAD")
            && (req.version == Http11 <==> h.version == "HTTP/1.1")
            && (req.version == Http10 <==> h.version == "HTTP/1.0")
            && (req.version == UnknownVersion <==> h.version != "HTTP/1.1" && h.version != "HTTP/1.0")
  {
    PrintThenParse(h, rest);
    assert "HTTP/1.1"[7] != "HTTP/1.0"[7];
    assert "GET"[0] == 'G' && "POST"[0] == 'P' && "HEAD"[0] == 'H';
  }

  lemma {:induction false} AllParsed(hs: seq<Head>)
    requires forall i :: 0 <= i < |hs| ==> Printable(hs[i])
    ensures Drain(START, PrintAll(hs)) == Drained(Meanings(hs), START, "")
  {
    if hs == [] {
    } else {
      PrintThenParse(hs[0], PrintAll(hs[1..]));
      AllParsed(hs[1..]);
    }
  }

  lemma ReferenceOfPrinted(hs: seq<Head>)
    requires forall i :: 0 <= i < |hs| ==> Printable(hs[i])
    ensures !Stalls(REF_START, Lines(PrintAll(hs)))
    ensures Reference(PrintAll(hs)).delivered == Meanings(hs) && Tail(PrintAll(hs)) == ""
  {
    var s := PrintAll(hs);
    AllParsed(hs);
    if Stalls(REF_START, Lines(s)) { StalledDrain(START, s, REF_START); }
    assert Concat([s]) == s + Concat([]) == s;
    SegmentationIndependent([s]);
    EmptyLeft(s);
    EmptyLeft(Meanings(hs));
    assert Feed(FRESH, [s]) == OnData(FRESH, s);
  }

  /** Pipelined requests arrive at onRequest as they were written, all of them and nothing else, however
      the bytes are cut into reads. */
  lemma PipelineDelivered(hs: seq<Head>, chunks: seq<string>)
    requires forall i :: 0 <= i < |hs| ==> Printable(hs[i])
    requires Concat(chunks) == PrintAll(hs)
    ensures Feed(FRESH, chunks).delivered == Meanings(hs) && Feed(FRESH, chunks).buf == ""
  {
    ReferenceOfPrinted(hs);
    SegmentationIndependent(chunks);
  }

  /** A witness, for every request: behind a line without spaces it is lost when both arrive in one read,
      and delivered when they arrive in two. */
  lemma LostBehindMalformed(h: Head)
    requires Printable(h)
    ensures Feed(FRESH, ["x" + CRLF + h.Print()]).delivered == []
    ensures Feed(FRESH, ["x" + CRLF, h.Print()]).delivered == [Meaning(h)]
  {
    var bad, good := "x" + CRLF, h.Print();
    BadLineRead(good);
    BadLineRead("");
    assert bad + "" == bad;
    FeedOne(FRESH, bad + good);
    assert [bad, good][1..] == [good];
    hide OnData;
    assert Feed(FRESH, [bad, good]) == Feed(OnData(FRESH, bad), [good]);
    DeliveredAlone(h);
  }

  lemma FeedOne(r: Reader, chunk: string)
    ensures Feed(r, [chunk]) == OnData(r, chunk)
  {
    assert [chunk][1..] == [];
  }

  lemma BadLineRead(rest: string)
    ensures OnData(FRESH, "x" + CRLF + rest) == Reader(START, rest, [])
  {
    LinePrinted("x", rest);
    assert RequestLine(EMPTY_REQUEST, "x") == (false, EMPTY_REQUEST);
    EmptyLeft("x" + CRLF + rest);
  }

  lemma DeliveredAlone(h: Head)
    requires Printable(h)
    ensures Feed(FRESH, [h.Print()]).delivered == [Meaning(h)]
  {
    assert Concat([h.Print()]) == h.Print() + Concat([]) == h.Print();
    assert PrintAll([h]) == h.Print() + PrintAll([]) == h.Print();
    PipelineDelivered([h], [h.Print()]);
    assert Meanings([h]) == [Meaning(h)] + Meanings([]) == [Meaning(h)];
  }
}
