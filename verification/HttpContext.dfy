/** The incremental request parser of the epoll server: HttpContext works on the connection's
    input buffer in place, and keeps its position in the message between reads. */
module HttpContext {
  import opened Text
  import opened NetBuffer

  datatype Method = Invalid | Get | Post | Head
  datatype Version = UnknownVersion | Http10 | Http11

  datatype Request = Request(meth: Method, path: string, query: string, version: Version,
                             headers: map<string, string>)
  {
    function GetHeader(key: string): string {
      if key in headers then headers[key] else ""
    }
  }

  const EMPTY_REQUEST := Request(Invalid, "", "", UnknownVersion, map[])

  datatype ParseState = ExpectRequestLine | ExpectHeaders | GotAll

  /** The fields of the parser as one value. */
  datatype Ctx = Ctx(state: ParseState, request: Request)

  const START := Ctx(ExpectRequestLine, EMPTY_REQUEST)

  // ----- one line -----

  function MethodOf(s: string): Method {
    if s == "GET" then Get else if s == "POST" then Post else if s == "HEAD" then Head else Invalid
  }

  function VersionOf(s: string): Version {
    if s == "HTTP/1.1" then Http11 else if s == "HTTP/1.0" then Http10 else UnknownVersion
  }

  /** A request line is malformed when it has fewer than two spaces. */
  predicate WellFormedRequestLine(line: string) {
    exists i, j :: 0 <= i < j < |line| && line[i] == ' ' && line[j] == ' '
  }

  /** The method is stored before the second space is looked for, so a malformed line can leave
      its method behind in the request. */
  function RequestLine(req: Request, line: string): (r: (bool, Request)) {
    var sp := IndexOf(line, ' ');
    if sp == |line| then (false, req)
    else
      var withMethod := req.(meth := MethodOf(line[..sp]));
      var rest := line[sp + 1..];
      var sp2 := IndexOf(rest, ' ');
      if sp2 == |rest| then (false, withMethod)
      else
        var target := rest[..sp2];
        var q := IndexOf(target, '?');
        var withPath := if q < |target| then withMethod.(path := target[..q], query := target[q + 1..])
                        else withMethod.(path := target);
        (true, withPath.(version := VersionOf(rest[sp2 + 1..])))
  }

  lemma RequestLineOk(req: Request, line: string)
    ensures RequestLine(req, line).0 <==> WellFormedRequestLine(line)
  {
    var sp := IndexOf(line, ' ');
    if sp < |line| {
      var rest := line[sp + 1..];
      var sp2 := IndexOf(rest, ' ');
      if sp2 < |rest| {
        assert line[sp + 1 + sp2] == rest[sp2] == ' ';
      } else {
        assert forall j :: sp < j < |line| ==> line[j] == rest[j - sp - 1] && line[j] != ' ';
      }
    }
  }

  predicate IsBlank(c: char) { c == ' ' || c == '\t' }

  function TrimBlanks(s: string): (r: string)
    ensures r != "" ==> !IsBlank(r[0]) && !IsBlank(r[|r| - 1])
  {
    if s == "" then s
    else if IsBlank(s[0]) then TrimBlanks(s[1..])
    else if IsBlank(s[|s| - 1]) then TrimBlanks(s[..|s| - 1])
    else s
  }

  /** A header line without a colon is dropped. The name is kept as it is, the value is trimmed. */
  function HeaderLine(req: Request, line: string): Request {
    var colon := IndexOf(line, ':');
    if colon == |line| then req
    else req.(headers := req.headers[line[..colon] := TrimBlanks(line[colon + 1..])])
  }

  /** Nothing but spaces and tabs. */
  predicate Blanks(s: string) { forall i :: 0 <= i < |s| ==> s[i] == ' ' || s[i] == '\t' }

  predicate NoBlankEnds(s: string) {
    s != "" ==> s[0] != ' ' && s[0] != '\t' && s[|s| - 1] != ' ' && s[|s| - 1] != '\t'
  }

  /** Trimming takes off exactly the spaces and tabs at the two ends. */
  lemma {:induction false} TrimBlanksIs(s: string) returns (left: string, right: string)
    ensures s == left + TrimBlanks(s) + right && Blanks(left) && Blanks(right)
    ensures NoBlankEnds(TrimBlanks(s))
    decreases |s|
  {
    if s == "" {
      left, right := "", "";
    } else if IsBlank(s[0]) {
      left, right := TrimBlanksIs(s[1..]);
      assert s == [s[0]] + s[1..];
      assert [s[0]] + left + TrimBlanks(s[1..]) + right == [s[0]] + (left + TrimBlanks(s[1..]) + right);
      left := [s[0]] + left;
    } else if IsBlank(s[|s| - 1]) {
      var last := s[|s| - 1];
      left, right := TrimBlanksIs(s[..|s| - 1]);
      assert s == s[..|s| - 1] + [last];
      assert left + TrimBlanks(s[..|s| - 1]) + (right + [last]) == left + TrimBlanks(s[..|s| - 1]) + right + [last];
      right := right + [last];
    } else {
      left, right := "", "";
      assert s == "" + s + "";
    }
  }

  /** Any header line: without a colon it changes nothing; otherwise what is before the first colon is the
      name, as it stands, and what is behind it, without the blanks around it, the value. */
  lemma HeaderLineIs(req: Request, line: string) returns (name: string, left: string, value: string, right: string)
    ensures if forall i :: 0 <= i < |line| ==> line[i] != ':' then HeaderLine(req, line) == req
            else
              && line == name + [':'] + left + value + right
              && (forall i :: 0 <= i < |name| ==> name[i] != ':')
              && Blanks(left) && Blanks(right)
              && NoBlankEnds(value)
              && HeaderLine(req, line) == req.(headers := req.headers[name := value])
  {
    hide TrimBlanks, Blanks, NoBlankEnds;
    var colon := IndexOf(line, ':');
    name, left, value, right := "", "", "", "";
    if colon < |line| {
      var behind := line[colon + 1..];
      name, value := line[..colon], TrimBlanks(behind);
      left, right := TrimBlanksIs(behind);
      assert line == name + [':'] + behind;
      Assoc(name + [':'], left + value, right);
      Assoc(name + [':'], left, value);
    }
  }

  // ----- what one parseRequest call and one onMessage call do -----

  datatype Progress = More | Failed | Complete

  /** One complete line, in either state that reads lines. */
  function Turn(ctx: Ctx, line: string): (r: (Progress, Ctx)) {
    match ctx.state
    case GotAll => (Failed, ctx)
    case ExpectRequestLine =>
      var (ok, req) := RequestLine(ctx.request, line);
      if ok then (More, Ctx(ExpectHeaders, req)) else (Failed, Ctx(ExpectRequestLine, req))
    case ExpectHeaders =>
      if line == "" then (Complete, Ctx(GotAll, ctx.request))
      else (More, Ctx(ExpectHeaders, HeaderLine(ctx.request, line)))
  }

  datatype Outcome = Outcome(got: bool, ctx: Ctx, rest: string)

  function Parse(ctx: Ctx, s: string): (o: Outcome)
    ensures o.got ==> |o.rest| < |s|
    decreases |s|
  {
    if ctx.state == GotAll || FindCRLF(s).None? then Outcome(false, ctx, s)
    else
      var i := FindCRLF(s).value;
      var (progress, ctx') := Turn(ctx, s[..i]);
      match progress
      case More => Parse(ctx', s[i + 2..])
      case Failed => Outcome(false, ctx', s[i + 2..])
      case Complete => Outcome(true, ctx', s[i + 2..])
  }

  datatype Drained = Drained(requests: seq<Request>, ctx: Ctx, rest: string)

  function Drain(ctx: Ctx, s: string): (d: Drained)
    decreases |s|
  {
    if s == "" then Drained([], ctx, s)
    else
      var o := Parse(ctx, s);
      if !o.got then Drained([], o.ctx, o.rest)
      else
        var d := Drain(START, o.rest);
        d.(requests := [o.ctx.request] + d.requests)
  }

  // ----- the object -----

  class HttpContext {
    var state: ParseState
    var request: Request

    function Value(): Ctx
      reads this
    {
      Ctx(state, request)
    }

    constructor ()
      ensures Value() == START
    {
      state := ExpectRequestLine;
      request := EMPTY_REQUEST;
    }

    method Reset()
      modifies this
      ensures Value() == START
    {
      state := ExpectRequestLine;
      request := EMPTY_REQUEST;
    }

    /** True when the line could be split into a method, a target and a version. */
    method ProcessRequestLine(line: string) returns (ok: bool)
      modifies this`request
      ensures (ok, request) == RequestLine(old(request), line)
      ensures ok <==> WellFormedRequestLine(line)
    {
      RequestLineOk(request, line);
      var start := 0;
      var space := IndexOf(line, ' ');
      if space == |line| { return false; }
      request := request.(meth := MethodOf(line[..space]));
      start := space + 1;
      var rest := line[start..];
      space := IndexOf(rest, ' ');
      if space == |rest| { return false; }
      var target := rest[..space];
      var q := IndexOf(target, '?');
      if q < |target| {
        request := request.(path := target[..q], query := target[q + 1..]);
      } else {
        request := request.(path := target);
      }
      request := request.(version := VersionOf(rest[space + 1..]));
      return true;
    }

    /** Takes one complete line, without its CR LF, from the front of the buffer. */
    static method TakeLine(buf: Buffer) returns (line: Option<string>)
      requires buf.Valid()
      modifies buf
      ensures buf.Valid() && buf.data == old(buf.data)
      ensures line.None? ==> FindCRLF(old(buf.Contents())).None? && buf.Contents() == old(buf.Contents())
      ensures line.Some? ==>
                var i := |line.value|;
                && FindCRLF(old(buf.Contents())) == Some(i)
                && line.value == old(buf.Contents())[..i]
                && buf.Contents() == old(buf.Contents())[i + 2..]
    {
      var bytes := buf.Peek();
      var crlf := FindCRLF(bytes);
      if crlf.None? { return None; }
      line := Some(bytes[..crlf.value]);
      buf.RetrieveUntil(crlf.value + 2);
    }

    /** What the parsing loop does with one line. */
    method ConsumeLine(line: string) returns (progress: Progress)
      requires state != GotAll
      modifies this
      ensures (progress, Value()) == Turn(old(Value()), line)
    {
      if state == ExpectRequestLine {
        var ok := ProcessRequestLine(line);
        if !ok { return Failed; }
        state := ExpectHeaders;
      } else {
        if line == "" {
          state := GotAll;
          return Complete;
        }
        request := HeaderLine(request, line);
      }
      return More;
    }

    /** Consumes complete lines from the buffer until a request is complete, a request line is
        malformed, or no complete line is left. */
    method ParseRequest(buf: Buffer) returns (got: bool)
      requires buf.Valid()
      modifies this, buf
      ensures buf.Valid() && buf.data == old(buf.data)
      ensures Outcome(got, Value(), buf.Contents()) == Parse(old(Value()), old(buf.Contents()))
    {
      ghost var target := Parse(Value(), buf.Contents());
      while state != GotAll
        invariant buf.Valid() && buf.data == old(buf.data)
        invariant Parse(Value(), buf.Contents()) == target
        decreases |buf.Contents()|
      {
        var line := TakeLine(buf);
        if line.None? { return false; }
        var progress := ConsumeLine(line.value);
        if progress != More { return progress == Complete; }
      }
      return false;
    }
  }
}
