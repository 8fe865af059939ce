/** Printing a request head, and the round trip through the parser. */
module HttpPrint {
  import opened Text
  import opened Ctype
  import opened HttpParser
  import opened RequestText

  predicate Word(s: string) { s != "" && forall i :: 0 <= i < |s| ==> !IsSpace(s[i]) }

  predicate PrintableHeader(h: (string, string)) {
    && h.0 != "" && Trimmed(h.0) && OneLine(h.0) && Without(h.0, ':')
    && Trimmed(h.1) && OneLine(h.1)
  }

  /** What can be printed so that it reads back. Header names may be in any case; a value may contain
      anything but a line feed. */
  predicate Printable(h: Head) {
    && Word(h.meth) && (forall i :: 0 <= i < |h.meth| ==> IsTokenChar(h.meth[i]))
    && Word(h.Target()) && h.path != "" && h.path[0] == '/' && Without(h.path, '?')
    && Word(h.version)
    && forall i :: 0 <= i < |h.headers| ==> PrintableHeader(h.headers[i])
  }

  /** The map the parser builds: names in lower case, the last value of each. */
  function HeaderMap(m: map<string, string>, hs: seq<(string, string)>): map<string, string>
    decreases |hs|
  {
    if hs == [] then m else HeaderMap(m[Lower(hs[0].0) := hs[0].1], hs[1..])
  }

  /** A Content-Length is a number within the limit. */
  predicate LengthOk(h: (string, string), config: Config) {
    Lower(h.0) == "content-length" ==>
      ParseContentLength(h.1).Some? && ParseContentLength(h.1).value <= config.maxBodyBytes
  }

  predicate LengthsOk(hs: seq<(string, string)>, config: Config) {
    forall i :: 0 <= i < |hs| ==> LengthOk(hs[i], config)
  }

  // ----- lines and words of printed text -----

  lemma GetLinePrinted(line: string, rest: string)
    requires OneLine(line)
    ensures GetLine(line + CRLF + rest) == Some((line + "\r", rest))
    ensures ChopCR(line + "\r") == line
  {
    var s := line + CRLF + rest;
    assert s == (line + "\r") + ['\n'] + rest;
    IndexOfAfter(line + "\r", '\n', rest);
    assert s[..|line| + 1] == line + "\r" && s[|line| + 2..] == rest;
    assert (line + "\r")[..|line|] == line;
  }

  lemma SplitPrinted(h: (string, string))
    requires PrintableHeader(h)
    ensures SplitLine(FieldLine(h)) == Some((Lower(h.0), h.1))
  {
    var line := FieldLine(h);
    assert line == h.0 + [':'] + (" " + h.1);
    IndexOfAfter(h.0, ':', " " + h.1);
    assert line[..|h.0|] == h.0 && line[|h.0| + 1..] == " " + h.1;
    TrimPadded(" ", h.1, "");
    assert " " + h.1 + "" == " " + h.1;
  }

  lemma {:induction false} WordLengthOf(w: string, rest: string)
    requires forall i :: 0 <= i < |w| ==> !IsSpace(w[i])
    requires rest == "" || IsSpace(rest[0])
    ensures WordLength(w + rest) == |w|
  {
    if w == "" {
      assert w + rest == rest;
    } else {
      assert (w + rest)[1..] == w[1..] + rest;
      WordLengthOf(w[1..], rest);
    }
  }

  lemma FirstWord(w: string, rest: string)
    requires Word(w) && (rest == "" || IsSpace(rest[0]))
    ensures Words(w + rest) == [w] + Words(rest)
  {
    WordLengthOf(w, rest);
    assert (w + rest)[..|w|] == w && (w + rest)[|w|..] == rest;
  }

  lemma ThreeWords(a: string, b: string, c: string)
    requires Word(a) && Word(b) && Word(c)
    ensures Words(a + " " + b + " " + c) == [a, b, c]
  {
    var bc := b + (" " + c);
    assert a + " " + b + " " + c == a + (" " + bc);
    FirstWord(a, " " + bc);
    assert (" " + bc)[1..] == bc;
    TwoWords(b, c);
  }

  lemma TwoWords(b: string, c: string)
    requires Word(b) && Word(c)
    ensures Words(b + (" " + c)) == [b, c]
  {
    FirstWord(b, " " + c);
    assert (" " + c)[1..] == c && c + "" == c;
    FirstWord(c, "");
  }

  // ----- the headers -----

  function TakeAll(s: Scan, hs: seq<(string, string)>, config: Config): ScanResult
    decreases |hs|
  {
    if hs == [] then Scanned(s)
    else
      match TakeHeader(s, Lower(hs[0].0), hs[0].1, config)
      case Refused(st, req, m) => Refused(st, req, m)
      case Scanned(s') => TakeAll(s', hs[1..], config)
  }

  lemma {:induction false} ScanPrinted(s: Scan, hs: seq<(string, string)>, config: Config)
    requires forall i :: 0 <= i < |hs| ==> PrintableHeader(hs[i])
    ensures ScanHeaders(s, HeaderText(hs) + CRLF, config) == TakeAll(s, hs, config)
    decreases |hs|
  {
    if hs == [] {
      assert HeaderText(hs) + CRLF == "" + CRLF + "";
      GetLinePrinted("", "");
      assert "" + "\r" == "\r";
    } else {
      var line, rest := FieldLine(hs[0]), HeaderText(hs[1..]) + CRLF;
      assert HeaderText(hs) + CRLF == line + CRLF + rest;
      GetLinePrinted(line, rest);
      SplitPrinted(hs[0]);
      assert |Lower(hs[0].0)| > 0;
      var taken := TakeHeader(s, Lower(hs[0].0), hs[0].1, config);
      assert TakeLine(s, line, config) == taken;
      if taken.Scanned? { ScanPrinted(taken.scan, hs[1..], config); }
    }
  }

  /** The scan of printed headers succeeds exactly when the lengths are acceptable, and then the map
      is HeaderMap and the request line's fields are untouched. */
  lemma {:induction false} TakeAllResult(s: Scan, hs: seq<(string, string)>, config: Config)
    ensures TakeAll(s, hs, config).Scanned? <==> LengthsOk(hs, config)
    ensures TakeAll(s, hs, config).Scanned? ==>
              var r := TakeAll(s, hs, config).scan.request;
              && r.headers == HeaderMap(s.request.headers, hs)
              && r.meth == s.request.meth && r.target == s.request.target && r.path == s.request.path
              && r.query == s.request.query && r.version == s.request.version && r.body == s.request.body
    decreases |hs|
  {
    if hs == [] {
    } else {
      var taken := TakeHeader(s, Lower(hs[0].0), hs[0].1, config);
      LookupAfter(map[], Lower(hs[0].0), hs[0].1);
      assert LengthOk(hs[0], config) <==> taken.Scanned?;
      assert LengthsOk(hs, config) <==> LengthOk(hs[0], config) && LengthsOk(hs[1..], config) by {
        assert forall i :: 1 <= i < |hs| ==> hs[i] == hs[1..][i - 1];
      }
      if taken.Scanned? { TakeAllResult(taken.scan, hs[1..], config); }
    }
  }

  // ----- the round trip -----

  /** The request a printed head stands for, before the checks. */
  function Meaning(h: Head): Request {
    EMPTY.(meth := h.meth, target := h.Target(), version := h.version, path := h.path,
           query := h.Query(), headers := HeaderMap(map[], h.headers))
  }

  lemma RequestLinePrinted(h: Head)
    requires Printable(h)
    ensures RequestLine(h.FirstLine()) ==
            Result(Ok, Meaning(h).(headers := map[]), "")
  {
    ThreeWords(h.meth, h.Target(), h.version);
    TargetSplit(h);
  }

  /** Printing and parsing. The parse succeeds exactly when the head is within the size limit, every
      Content-Length is acceptable, the version is known, and a POST with a body has an allowed type;
      and then it gives back the method, path, query, version and headers that were printed. */
  lemma PrintThenParse(h: Head, config: Config)
    requires Printable(h)
    ensures var r := ParseHead(h.Print(), config);
            var m := HeaderMap(map[], h.headers);
            r.status == Ok <==>
              && |h.Print()| <= config.maxHeaderBytes
              && LengthsOk(h.headers, config)
              && (h.version == "HTTP/1.1" || h.version == "HTTP/1.0")
              && (h.meth == "POST" && LengthIn(m) != Some(0) ==> IsAllowedContentType(GetOr(m, "content-type")))
    ensures var r := ParseHead(h.Print(), config);
            r.status == Ok ==>
              && r.request.meth == h.meth && r.request.path == h.path && r.request.version == h.version
              && r.request.query == h.Query()
              && r.request.headers == HeaderMap(map[], h.headers)
  {
    var line, rest := h.FirstLine(), HeaderText(h.headers) + CRLF;
    var start := Meaning(h).(headers := map[]);
    assert OneLine(line);
    GetLinePrinted(line, rest);
    RequestLinePrinted(h);
    ContinuePrinted(start, h.headers, config);
  }

  lemma ConcludeResult(end: Scan, config: Config)
    requires ScanAgrees(end, config)
    ensures var r, req, m := Conclude(end), end.request, end.request.headers;
            && (r.status == Ok <==>
                 && (req.version == "HTTP/1.1" || req.version == "HTTP/1.0")
                 && (req.meth == "POST" && LengthIn(m) != Some(0) ==> IsAllowedContentType(GetOr(m, "content-type"))))
            && (r.status == Ok ==> r.request == req.(keepAlive := r.request.keepAlive))
  {}

  lemma ContinuePrinted(start: Request, hs: seq<(string, string)>, config: Config)
    requires forall i :: 0 <= i < |hs| ==> PrintableHeader(hs[i])
    requires start.headers == map[] && start.contentLength == 0 && start.contentType == ""
    ensures var r := Continue(Result(Ok, start, ""), HeaderText(hs) + CRLF, config);
            var m := HeaderMap(map[], hs);
            && (r.status == Ok <==>
                 && LengthsOk(hs, config)
                 && (start.version == "HTTP/1.1" || start.version == "HTTP/1.0")
                 && (start.meth == "POST" && LengthIn(m) != Some(0) ==> IsAllowedContentType(GetOr(m, "content-type"))))
            && (r.status == Ok ==>
                 && r.request.meth == start.meth && r.request.path == start.path && r.request.query == start.query
                 && r.request.version == start.version && r.request.headers == m)
  {
    var scan := Scan(start, false, false);
    ScanPrinted(scan, hs, config);
    TakeAllResult(scan, hs, config);
    var taken := TakeAll(scan, hs, config);
    if taken.Scanned? {
      assert ScanAgrees(taken.scan, config) by {
        StartAgrees(start, config);
        ScanHeadersAgrees(scan, HeaderText(hs) + CRLF, config);
      }
      ConcludeResult(taken.scan, config);
    }
  }
}
