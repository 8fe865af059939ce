/** The request-head parser of the Asio server. */
module HttpParser {
  import opened Text
  import opened Ctype

  /** std::size_t, and std::stoull's range. */
  const SIZE_MODULUS: nat := 0x1_0000_0000_0000_0000

  datatype Config = Config(maxHeaderBytes: nat, maxBodyBytes: nat)

  datatype Status = Ok | BadRequest | HeaderTooLarge | BodyTooLarge | UnsupportedMediaType

  datatype Request = Request(
    meth: string, target: string, path: string, query: string, version: string,
    headers: map<string, string>, body: string, contentLength: nat, contentType: string, keepAlive: bool)
  {
    /** Header names are matched without regard to case. */
    function Header(name: string): string {
      if Lower(name) in headers then headers[Lower(name)] else ""
    }

    predicate HasHeader(name: string) { Lower(name) in headers }
  }

  const EMPTY := Request("", "", "", "", "", map[], "", 0, "", false)

  datatype Result = Result(status: Status, request: Request, message: string)

  predicate IsTokenChar(c: char) { IsAlnum(c) || c == '-' || c == '_' || c == '.' }

  predicate IsAllowedContentType(value: string) {
    var normalized := Lower(value);
    var semicolon := IndexOf(normalized, ';');
    var media := if semicolon < |normalized| then Trim(normalized[..semicolon]) else normalized;
    media == "text/plain" || media == "application/json" || media == "application/x-www-form-urlencoded"
  }

  function Number(digits: string): nat
    requires forall i :: 0 <= i < |digits| ==> IsDigit(digits[i])
  {
    if digits == "" then 0
    else
      var last := digits[|digits| - 1];
      assert IsDigit(last);
      Number(digits[..|digits| - 1]) * 10 + (last as int - '0' as int)
  }

  /** std::stoull on the trimmed text, all of which must be consumed: an optional sign, then digits,
      and a value that fits. A minus sign negates modulo 2^64. */
  function ParseContentLength(value: string): (r: Option<nat>)
    ensures r.Some? ==> r.value < SIZE_MODULUS
  {
    var t := Trim(value);
    if t != "" && (t[0] == '+' || t[0] == '-') then FromDigits(t[1..], t[0] == '-') else FromDigits(t, false)
  }

  function FromDigits(digits: string, negative: bool): (r: Option<nat>)
    ensures r.Some? ==> r.value < SIZE_MODULUS
  {
    if digits == "" || exists i :: 0 <= i < |digits| && !IsDigit(digits[i]) then None
    else
      var n := Number(digits);
      if n >= SIZE_MODULUS then None
      else if negative && n > 0 then Some(SIZE_MODULUS - n)
      else Some(n)
  }

  /** std::string::find != npos. */
  predicate Contains(s: string, sub: string) {
    sub <= s || (s != "" && Contains(s[1..], sub))
  }

  // ----- lines and words -----

  /** std::getline: nothing when no character is left, else the text up to a line feed or the end. */
  function GetLine(s: string): (r: Option<(string, string)>)
    ensures r.Some? ==> |r.value.1| < |s|
  {
    if s == "" then None
    else
      var i := IndexOf(s, '\n');
      Some((s[..i], if i < |s| then s[i + 1..] else ""))
  }

  function ChopCR(line: string): string {
    if line != "" && line[|line| - 1] == '\r' then line[..|line| - 1] else line
  }

  /** The length of the white-space-free text at the front. */
  function WordLength(s: string): (n: nat)
    ensures n <= |s| && forall i :: 0 <= i < n ==> !IsSpace(s[i])
    ensures n < |s| ==> IsSpace(s[n])
  {
    if s == "" || IsSpace(s[0]) then 0 else 1 + WordLength(s[1..])
  }

  /** What repeated operator>> into strings extracts. */
  function Words(s: string): seq<string>
    decreases |s|
  {
    if s == "" then []
    else if IsSpace(s[0]) then Words(s[1..])
    else
      var n := WordLength(s);
      [s[..n]] + Words(s[n..])
  }

  // ----- the header lines -----

  /** The loop's state: the request so far, and what the last Connection header asked for. */
  datatype Scan = Scan(request: Request, close: bool, keep: bool)

  datatype ScanResult = Scanned(scan: Scan) | Refused(status: Status, request: Request, message: string)

  /** One header, name and value already trimmed and the name in lower case. */
  function TakeHeader(s: Scan, key: string, value: string, config: Config): (r: ScanResult)
    ensures r.Refused? ==> r.status != Ok
  {
    var req := s.request.(headers := s.request.headers[key := value]);
    if key == "connection" then
      var v := Lower(value);
      Scanned(Scan(req, Contains(v, "close"), Contains(v, "keep-alive")))
    else if key == "content-length" then
      match ParseContentLength(value)
      case None => Refused(BadRequest, req, "bad content-length")
      case Some(n) =>
        if n > config.maxBodyBytes then Refused(BodyTooLarge, req.(contentLength := n), "request body too large")
        else Scanned(s.(request := req.(contentLength := n)))
    else if key == "content-type" then Scanned(s.(request := req.(contentType := value)))
    else Scanned(s.(request := req))
  }

  /** The name in lower case and the value, both trimmed. */
  function SplitLine(line: string): (r: Option<(string, string)>)
    ensures r.Some? ==> Trimmed(r.value.0) && Lower(r.value.0) == r.value.0
  {
    var colon := IndexOf(line, ':');
    if colon == |line| then None
    else
      LowerTrimmed(Trim(line[..colon]));
      Some((Lower(Trim(line[..colon])), Trim(line[colon + 1..])))
  }

  function TakeLine(s: Scan, line: string, config: Config): (r: ScanResult)
    ensures r.Refused? ==> r.status != Ok
  {
    match SplitLine(line)
    case None => Refused(BadRequest, s.request, "bad header line")
    case Some((key, value)) =>
      if key == "" then Refused(BadRequest, s.request, "empty header name") else TakeHeader(s, key, value, config)
  }

  function ScanHeaders(s: Scan, text: string, config: Config): (r: ScanResult)
    ensures r.Refused? ==> r.status != Ok
    decreases |text|
  {
    match GetLine(text)
    case None => Scanned(s)
    case Some((raw, rest)) =>
      var line := ChopCR(raw);
      if line == "" then Scanned(s)
      else
        match TakeLine(s, line, config)
        case Refused(st, req, m) => Refused(st, req, m)
        case Scanned(s') => ScanHeaders(s', rest, config)
  }

  // ----- the whole head -----

  /** The request line: the fields it gives, or why it is refused. */
  function RequestLine(line: string): Result {
    var w := Words(line);
    var named := EMPTY.(meth := if |w| > 0 then w[0] else "", target := if |w| > 1 then w[1] else "",
                        version := if |w| > 2 then w[2] else "");
    if |w| != 3 then Result(BadRequest, named, "bad request line")
    else if exists i :: 0 <= i < |w[0]| && !IsTokenChar(w[0][i]) then Result(BadRequest, named, "bad method token")
    else
      var q := IndexOf(w[1], '?');
      var split := named.(path := w[1][..q], query := if q < |w[1]| then w[1][q + 1..] else "");
      if split.path == "" || split.path[0] != '/' then Result(BadRequest, split, "bad request target")
      else Result(Ok, split, "")
  }

  /** The checks after the last header. */
  function Conclude(s: Scan): Result {
    if s.request.version != "HTTP/1.1" && s.request.version != "HTTP/1.0" then
      Result(BadRequest, s.request, "unsupported http version")
    else
      var req := s.request.(keepAlive := if s.request.version == "HTTP/1.1" then !s.close else s.keep);
      if req.meth == "POST" && req.contentLength > 0 && !IsAllowedContentType(req.contentType) then
        Result(UnsupportedMediaType, req, "unsupported content-type")
      else Result(Ok, req, "")
  }

  /** The headers, after a request line. */
  function Continue(start: Result, text: string, config: Config): Result {
    if start.status != Ok then start
    else
      match ScanHeaders(Scan(start.request, false, false), text, config)
      case Refused(st, req, m) => Result(st, req, m)
      case Scanned(s) => Conclude(s)
  }

  function ParseHead(raw: string, config: Config): Result {
    if |raw| > config.maxHeaderBytes then Result(HeaderTooLarge, EMPTY, "request header too large")
    else
      match GetLine(raw)
      case None => Result(BadRequest, EMPTY, "missing request line")
      case Some((first, rest)) =>
        Continue(RequestLine(ChopCR(first)), rest, config)
  }

  /** The parser, line by line. */
  method ParseHttpRequestHead(rawHeaders: string, config: Config) returns (result: Result)
    ensures result == ParseHead(rawHeaders, config)
    ensures result.status == Ok ==> Agrees(result.request, config)
  {
    ParsedAgrees(rawHeaders, config);
    if |rawHeaders| > config.maxHeaderBytes {
      return Result(HeaderTooLarge, EMPTY, "request header too large");
    }
    var requestLine := GetLine(rawHeaders);
    if requestLine.None? {
      return Result(BadRequest, EMPTY, "missing request line");
    }
    result := RequestLine(ChopCR(requestLine.value.0));
    if result.status != Ok { return; }

    var scan := Scan(result.request, false, false);
    var text := requestLine.value.1;
    ghost var target := ScanHeaders(scan, text, config);
    var more := true;
    while more
      invariant target == if more then ScanHeaders(scan, text, config) else Scanned(scan)
      decreases more, |text|
    {
      var next := GetLine(text);
      if next.None? {
        more := false;
      } else {
        var line := ChopCR(next.value.0);
        if line == "" {
          more := false;
        } else {
          match TakeLine(scan, line, config) {
            case Refused(status, request, message) => return Result(status, request, message);
            case Scanned(s) => scan := s;
          }
          text := next.value.1;
        }
      }
    }
    result := Conclude(scan);
  }

  // ----- the cached fields -----

  function GetOr(m: map<string, string>, key: string): string {
    if key in m then m[key] else ""
  }

  /** contentLength as the header map has it: the last Content-Length, or zero. */
  function LengthIn(m: map<string, string>): Option<nat> {
    if "content-length" in m then ParseContentLength(m["content-length"]) else Some(0)
  }

  predicate GoodKey(k: string) { k != "" && Trimmed(k) && Lower(k) == k }

  /** The cached fields are what the final header map and version say, and every key is normalised. */
  predicate Agrees(req: Request, config: Config) {
    var connection := Lower(GetOr(req.headers, "connection"));
    && (forall k :: k in req.headers ==> GoodKey(k))
    && LengthIn(req.headers) == Some(req.contentLength)
    && req.contentLength <= config.maxBodyBytes
    && req.contentType == GetOr(req.headers, "content-type")
    && (req.version == "HTTP/1.1" || req.version == "HTTP/1.0")
    && req.keepAlive == (if req.version == "HTTP/1.1" then !Contains(connection, "close")
                         else Contains(connection, "keep-alive"))
  }

  ghost predicate KeysGood(m: map<string, string>) { forall k :: k in m ==> GoodKey(k) }

  ghost predicate ScanAgrees(s: Scan, config: Config) {
    var req := s.request;
    && KeysGood(req.headers)
    && LengthIn(req.headers) == Some(req.contentLength)
    && req.contentLength <= config.maxBodyBytes
    && req.contentType == GetOr(req.headers, "content-type")
    && s.close == Contains(Lower(GetOr(req.headers, "connection")), "close")
    && s.keep == Contains(Lower(GetOr(req.headers, "connection")), "keep-alive")
  }

  lemma LookupAfter(m: map<string, string>, key: string, value: string)
    ensures LengthIn(m[key := value]) == if key == "content-length" then ParseContentLength(value) else LengthIn(m)
    ensures GetOr(m[key := value], "content-type") == if key == "content-type" then value else GetOr(m, "content-type")
    ensures GetOr(m[key := value], "connection") == if key == "connection" then value else GetOr(m, "connection")
    ensures KeysGood(m) && GoodKey(key) ==> KeysGood(m[key := value])
    ensures "connection" != "content-length" && "connection" != "content-type" && "content-type" != "content-length"
  {
    assert |"connection"| == 10 && |"content-type"| == 12 && |"content-length"| == 14;
  }

  lemma TakeHeaderAgrees(s: Scan, key: string, value: string, config: Config)
    requires ScanAgrees(s, config) && GoodKey(key) && TakeHeader(s, key, value, config).Scanned?
    ensures ScanAgrees(TakeHeader(s, key, value, config).scan, config)
  {
    hide Contains, ParseContentLength, GoodKey;
    LookupAfter(s.request.headers, key, value);
    var t := TakeHeader(s, key, value, config).scan;
    assert t.request.headers == s.request.headers[key := value];
  }

  lemma StartAgrees(req: Request, config: Config)
    requires req.headers == map[] && req.contentLength == 0 && req.contentType == ""
    ensures ScanAgrees(Scan(req, false, false), config)
  {
    assert Lower("") == "";
    assert !Contains("", "close") && !Contains("", "keep-alive");
  }

  lemma ConcludeAgrees(s: Scan, config: Config)
    requires ScanAgrees(s, config) && Conclude(s).status == Ok
    ensures Agrees(Conclude(s).request, config)
  {}

  /** The request line leaves the header fields alone. */
  lemma RequestLineBlank(line: string)
    ensures var req := RequestLine(line).request;
            req.headers == map[] && req.contentLength == 0 && req.contentType == ""
  {}

  lemma TakeLineAgrees(s: Scan, line: string, config: Config)
    requires ScanAgrees(s, config) && TakeLine(s, line, config).Scanned?
    ensures ScanAgrees(TakeLine(s, line, config).scan, config)
  {
    var (key, value) := SplitLine(line).value;
    TakeHeaderAgrees(s, key, value, config);
  }

  lemma {:induction false} ScanHeadersAgrees(s: Scan, text: string, config: Config)
    requires ScanAgrees(s, config) && ScanHeaders(s, text, config).Scanned?
    ensures ScanAgrees(ScanHeaders(s, text, config).scan, config)
    decreases |text|
  {
    if GetLine(text).Some? {
      var (raw, rest) := GetLine(text).value;
      if ChopCR(raw) != "" {
        TakeLineAgrees(s, ChopCR(raw), config);
        ScanHeadersAgrees(TakeLine(s, ChopCR(raw), config).scan, rest, config);
      }
    }
  }

  /** On success, however often a header was repeated, the cached fields agree with the map. */
  lemma ParsedAgrees(raw: string, config: Config)
    ensures ParseHead(raw, config).status == Ok ==> Agrees(ParseHead(raw, config).request, config)
  {
    if GetLine(raw).Some? {
      var first, rest := GetLine(raw).value.0, GetLine(raw).value.1;
      RequestLineBlank(ChopCR(first));
      ContinueAgrees(RequestLine(ChopCR(first)), rest, config);
    }
  }

  lemma ContinueAgrees(start: Result, text: string, config: Config)
    requires start.request.headers == map[] && start.request.contentLength == 0 && start.request.contentType == ""
    ensures Continue(start, text, config).status == Ok ==> Agrees(Continue(start, text, config).request, config)
  {
    var scan := Scan(start.request, false, false);
    if start.status == Ok && ScanHeaders(scan, text, config).Scanned? {
      StartAgrees(start.request, config);
      ScanHeadersAgrees(scan, text, config);
      var end := ScanHeaders(scan, text, config).scan;
      if Conclude(end).status == Ok { ConcludeAgrees(end, config); }
    }
  }

  // ----- looking headers up -----

  /** The header lines up to the empty one: names trimmed and in lower case, values trimmed. */
  function FieldsOf(text: string): seq<(string, string)>
    decreases |text|
  {
    match GetLine(text)
    case None => []
    case Some((raw, rest)) =>
      if ChopCR(raw) == "" then []
      else
        match SplitLine(ChopCR(raw))
        case None => []
        case Some(field) => [field] + FieldsOf(rest)
  }

  /** Field i is the last one with this key. */
  predicate IsLast(fs: seq<(string, string)>, i: nat, key: string) {
    i < |fs| && fs[i].0 == key && Absent(fs[i + 1..], key)
  }

  predicate Absent(fs: seq<(string, string)>, key: string) {
    forall i :: 0 <= i < |fs| ==> fs[i].0 != key
  }

  function LastValue(fs: seq<(string, string)>, key: string): Option<string> {
    if fs == [] then None
    else
      match LastValue(fs[1..], key)
      case Some(v) => Some(v)
      case None => if fs[0].0 == key then Some(fs[0].1) else None
  }

  lemma {:induction false} LastValueIs(fs: seq<(string, string)>, key: string)
    ensures forall i: nat :: IsLast(fs, i, key) ==> LastValue(fs, key) == Some(fs[i].1)
    ensures LastValue(fs, key) == None <==> Absent(fs, key)
  {
    if fs == [] {
    } else {
      LastValueIs(fs[1..], key);
      assert Absent(fs, key) <==> fs[0].0 != key && Absent(fs[1..], key) by {
        assert forall i :: 1 <= i < |fs| ==> fs[i] == fs[1..][i - 1];
      }
      forall i: nat | IsLast(fs, i, key) ensures LastValue(fs, key) == Some(fs[i].1) {
        if i > 0 {
          assert fs[1..][i..] == fs[i + 1..];
          assert IsLast(fs[1..], i - 1, key);
        }
      }
    }
  }

  /** The map holds the last value of this key, or what it held before. */
  predicate HoldsLast(before: map<string, string>, fs: seq<(string, string)>, after: map<string, string>, key: string) {
    match LastValue(fs, key)
    case Some(v) => key in after && after[key] == v
    case None => (key in after <==> key in before) && (key in after ==> after[key] == before[key])
  }

  lemma HoldsLastCons(before: map<string, string>, f: (string, string), fs: seq<(string, string)>,
                      after: map<string, string>, key: string)
    requires HoldsLast(before[f.0 := f.1], fs, after, key)
    ensures HoldsLast(before, [f] + fs, after, key)
  {
    assert ([f] + fs)[1..] == fs;
  }

  lemma TakeHeaderStores(s: Scan, key: string, value: string, config: Config)
    requires TakeHeader(s, key, value, config).Scanned?
    ensures TakeHeader(s, key, value, config).scan.request.headers == s.request.headers[key := value]
  {}

  lemma {:induction false} ScanHoldsLast(s: Scan, text: string, config: Config, key: string)
    requires ScanHeaders(s, text, config).Scanned?
    ensures HoldsLast(s.request.headers, FieldsOf(text), ScanHeaders(s, text, config).scan.request.headers, key)
    decreases |text|
  {
    hide TakeHeader, SplitLine, HoldsLast;
    var after := ScanHeaders(s, text, config).scan.request.headers;
    if GetLine(text).None? || ChopCR(GetLine(text).value.0) == "" {
      HoldsNothing(s.request.headers, key);
    } else {
      var (raw, rest) := GetLine(text).value;
      var field := SplitLine(ChopCR(raw)).value;
      var taken := TakeHeader(s, field.0, field.1, config);
      TakeHeaderStores(s, field.0, field.1, config);
      ScanHoldsLast(taken.scan, rest, config, key);
      HoldsLastCons(s.request.headers, field, FieldsOf(rest), after, key);
    }
  }

  lemma HoldsNothing(m: map<string, string>, key: string)
    ensures HoldsLast(m, [], m, key)
  {}

  /** After a successful parse, looking a header up under a name in any case gives the value of the last line
      sent under that name in any case, and nothing if there was none. */
  lemma HeaderIsLastSent(raw: string, config: Config, name: string)
    requires ParseHead(raw, config).status == Ok
    ensures GetLine(raw).Some?
    ensures var req, fs := ParseHead(raw, config).request, FieldsOf(GetLine(raw).value.1);
            && (forall i: nat :: IsLast(fs, i, Lower(name)) ==> req.HasHeader(name) && req.Header(name) == fs[i].1)
            && (Absent(fs, Lower(name)) ==> !req.HasHeader(name) && req.Header(name) == "")
            && (forall other :: Lower(other) == Lower(name) ==>
                  req.Header(other) == req.Header(name) && req.HasHeader(other) == req.HasHeader(name))
  {
    var (first, rest) := GetLine(raw).value;
    var start := RequestLine(ChopCR(first));
    LastValueIs(FieldsOf(rest), Lower(name));
    RequestLineBlank(ChopCR(first));
    ScanHoldsLast(Scan(start.request, false, false), rest, config, Lower(name));
    ConcludeKeeps(start, rest, config);
  }

  lemma ConcludeKeeps(start: Result, text: string, config: Config)
    requires Continue(start, text, config).status == Ok && start.status == Ok
    ensures var r := ScanHeaders(Scan(start.request, false, false), text, config);
            r.Scanned? && Continue(start, text, config).request.headers == r.scan.request.headers
  {}

  // ----- the body -----

  function WithBody(req: Request, body: string, config: Config): (Status, Request) {
    if |body| > config.maxBodyBytes then (BodyTooLarge, req)
    else if req.contentLength != |body| then (BadRequest, req)
    else if req.meth == "POST" && body != "" && !IsAllowedContentType(req.contentType) then (UnsupportedMediaType, req)
    else (Ok, req.(body := body))
  }

  method AssignRequestBody(request: Request, body: string, config: Config) returns (status: Status, after: Request)
    ensures (status, after) == WithBody(request, body, config)
    ensures status == Ok ==> after == request.(body := body) && |body| == request.contentLength
    ensures status != Ok ==> after == request
  {
    after := request;
    if |body| > config.maxBodyBytes { return BodyTooLarge, after; }
    if request.contentLength != |body| { return BadRequest, after; }
    if request.meth == "POST" && body != "" && !IsAllowedContentType(request.contentType) {
      return UnsupportedMediaType, after;
    }
    after := request.(body := body);
    status := Ok;
  }

  /** A head that was accepted takes exactly the bodies of the announced length. */
  lemma AcceptedHeadTakesBody(raw: string, config: Config, body: string)
    requires ParseHead(raw, config).status == Ok
    ensures var req := ParseHead(raw, config).request;
            WithBody(req, body, config).0 == Ok <==> |body| == req.contentLength
  {
    ParsedAgrees(raw, config);
    PostTypeAllowed(raw, config);
  }

  lemma PostTypeAllowed(raw: string, config: Config)
    requires ParseHead(raw, config).status == Ok
    ensures var req := ParseHead(raw, config).request;
            req.meth == "POST" && req.contentLength > 0 ==> IsAllowedContentType(req.contentType)
  {
    var first, rest := GetLine(raw).value.0, GetLine(raw).value.1;
    ContinueChecksType(RequestLine(ChopCR(first)), rest, config);
  }

  lemma ContinueChecksType(start: Result, text: string, config: Config)
    ensures var r := Continue(start, text, config);
            r.status == Ok && r.request.meth == "POST" && r.request.contentLength > 0 ==>
              IsAllowedContentType(r.request.contentType)
  {}
}
