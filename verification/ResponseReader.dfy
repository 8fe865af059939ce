/** Responses as a client reads them back, one behind the other. Where a body ends is what section 6.3 of
    RFC 9112 says, as far as it applies to messages without transfer codings. */
module ResponseReader {
  import opened Text
  import opened Ctype
  import opened RequestText
  import opened HttpParser
  import opened HttpPrint
  import opened SessionStream
  import SessionSpec

  // ----- the client -----

  /** One message: its head up to and including the empty line, its body, and whether it announces that the
      connection will be closed. */
  datatype Received = Received(head: string, body: string, close: bool)

  /** The messages that are complete, and the bytes that are left over. */
  datatype Reading = Reading(messages: seq<Received>, rest: string)

  datatype Extent = Nothing | Exactly(n: nat) | UntilClose

  /** No limit on the length of a body. */
  const UNLIMITED := Config(0, SIZE_MODULUS)

  const NO_FIELDS := Scan(EMPTY, false, false)

  /** What the header lines of one head say. */
  function ReadHead(head: string): (string, ScanResult) {
    match GetLine(head)
    case None => ("", Scanned(NO_FIELDS))
    case Some((line, fields)) => (ChopCR(line), ScanHeaders(NO_FIELDS, fields, UNLIMITED))
  }

  function LengthOf(s: Scan): Option<nat> {
    if "content-length" in s.request.headers then Some(s.request.contentLength) else None
  }

  /** The second word of a status line. */
  function CodeText(line: string): string {
    var sp := IndexOf(line, ' ');
    if sp == |line| then "" else line[sp + 1..][..IndexOf(line[sp + 1..], ' ')]
  }

  /** 1xx, 204 and 304 responses have no body. */
  predicate BodilessCode(code: string) {
    code == "204" || code == "304" || (|code| == 3 && code[0] == '1')
  }

  /** `toHead`: the response answers a HEAD request. Without a length the body ends with the connection. */
  function ExtentOf(line: string, toHead: bool, length: Option<nat>): Extent {
    if toHead || BodilessCode(CodeText(line)) then Nothing
    else match length
      case Some(n) => Exactly(n)
      case None => UntilClose
  }

  function Cons(m: Received, r: Reading): Reading { Reading([m] + r.messages, r.rest) }

  /** The first message of a text and its length, if it is complete. */
  datatype First = Incomplete | Message(message: Received, length: nat)

  /** `ended`: the server has closed its side and nothing will follow. */
  function FirstOf(s: string, toHead: bool, ended: bool): (f: First)
    ensures f.Message? ==> 0 < f.length <= |s| && f.message.head + f.message.body == s[..f.length]
  {
    match SessionSpec.HeadLength(s)
    case None => Incomplete
    case Some(n) =>
      var (line, fields) := ReadHead(s[..n]);
      if fields.Refused? then Incomplete
      else Bounded(s, n, ExtentOf(line, toHead, LengthOf(fields.scan)), fields.scan.close, ended)
  }

  /** The message with the first n bytes for its head. */
  function Bounded(s: string, n: nat, extent: Extent, close: bool, ended: bool): (f: First)
    requires 0 < n <= |s|
    ensures f.Message? ==> 0 < f.length <= |s| && f.message.head + f.message.body == s[..f.length]
  {
    match extent
    case Nothing => Message(Received(s[..n], "", close), n)
    case Exactly(k) => if |s| < n + k then Incomplete else Message(Received(s[..n], s[n..n + k], close), n + k)
    case UntilClose => if ended then Message(Received(s[..n], s[n..], close), |s|) else Incomplete
  }

  /** `heads` says which of the responses answer a HEAD request. */
  function ReadAll(s: string, heads: seq<bool>, ended: bool): Reading
    decreases |s|
  {
    if heads == [] then Reading([], s)
    else
      match FirstOf(s, heads[0], ended)
      case Incomplete => Reading([], s)
      case Message(m, n) => Cons(m, ReadAll(s[n..], heads[1..], ended))
  }

  function BytesOf(ms: seq<Received>): string {
    if ms == [] then "" else ms[0].head + ms[0].body + BytesOf(ms[1..])
  }

  lemma ReadAllStep(s: string, heads: seq<bool>, ended: bool)
    requires heads != []
    ensures var f := FirstOf(s, heads[0], ended);
            if f.Message? then
              && ReadAll(s, heads, ended) == Cons(f.message, ReadAll(s[f.length..], heads[1..], ended))
              && f.message.head + f.message.body + s[f.length..] == s
            else ReadAll(s, heads, ended) == Reading([], s)
  {
    hide FirstOf;
    var f := FirstOf(s, heads[0], ended);
    if f.Message? { assert s[..f.length] + s[f.length..] == s; }
  }

  /** Reading loses no byte and invents none. */
  lemma {:induction false} ReadingConserves(s: string, heads: seq<bool>, ended: bool)
    ensures BytesOf(ReadAll(s, heads, ended).messages) + ReadAll(s, heads, ended).rest == s
    decreases |s|
  {
    hide FirstOf;
    EmptyLeft(s);
    if heads == [] {
    } else {
      hide ReadAll;
      ReadAllStep(s, heads, ended);
      var f := FirstOf(s, heads[0], ended);
      if f.Message? {
        ReadingConserves(s[f.length..], heads[1..], ended);
        ConsBytes(f.message, ReadAll(s[f.length..], heads[1..], ended), s[f.length..], s);
      }
    }
  }

  lemma ConsBytes(m: Received, r: Reading, s: string, all: string)
    requires BytesOf(r.messages) + r.rest == s && all == m.head + m.body + s
    ensures BytesOf(Cons(m, r).messages) + Cons(m, r).rest == all
  {
    assert Cons(m, r).messages[1..] == r.messages;
    Assoc(m.head + m.body, BytesOf(r.messages), r.rest);
  }

  // ----- one message -----

  /** Reading the fields back gives this length, and asks for closing or not. */
  ghost predicate FieldsSay(fields: seq<(string, string)>, length: Option<nat>, close: bool) {
    && (forall i :: 0 <= i < |fields| ==> PrintableHeader(fields[i]))
    && Says(TakeAll(NO_FIELDS, fields, UNLIMITED), length, close)
  }

  ghost predicate Says(r: ScanResult, length: Option<nat>, close: bool) {
    r.Scanned? && LengthOf(r.scan) == length && r.scan.close == close
  }

  /** What a client reads behind the head of a message. */
  function Taken(head: string, extent: Extent, close: bool, after: string, heads: seq<bool>, ended: bool): Reading {
    match extent
    case Nothing => Cons(Received(head, "", close), ReadAll(after, heads, ended))
    case Exactly(n) =>
      if |after| < n then Reading([], head + after)
      else Cons(Received(head, after[..n], close), ReadAll(after[n..], heads, ended))
    case UntilClose =>
      if ended then Reading([Received(head, after, close)], "") else Reading([], head + after)
  }

  lemma MessageRead(line: string, fields: seq<(string, string)>, length: Option<nat>, close: bool,
                    after: string, heads: seq<bool>, ended: bool)
    requires OneLine(line) && line != "" && FieldsSay(fields, length, close) && heads != []
    ensures ReadAll(HeadText(line, fields) + after, heads, ended) ==
            Taken(HeadText(line, fields), ExtentOf(line, heads[0], length), close, after, heads[1..], ended)
  {
    HeadLengthOfText(line, fields, after);
    HeadRead(line, fields);
    var head, extent := HeadText(line, fields), ExtentOf(line, heads[0], length);
    FirstRead(head, line, TakeAll(NO_FIELDS, fields, UNLIMITED).scan, after, heads[0], ended);
    BoundedTaken(head, extent, close, after, heads, ended);
  }

  lemma FirstRead(head: string, line: string, scan: Scan, after: string, toHead: bool, ended: bool)
    requires SessionSpec.HeadLength(head + after) == Some(|head|) && ReadHead(head) == (line, Scanned(scan))
    ensures |head| > 0
    ensures FirstOf(head + after, toHead, ended) ==
            Bounded(head + after, |head|, ExtentOf(line, toHead, LengthOf(scan)), scan.close, ended)
  {
    assert (head + after)[..|head|] == head;
  }

  lemma BoundedTaken(head: string, extent: Extent, close: bool, after: string, heads: seq<bool>, ended: bool)
    requires heads != [] && head != ""
    requires FirstOf(head + after, heads[0], ended) == Bounded(head + after, |head|, extent, close, ended)
    ensures ReadAll(head + after, heads, ended) == Taken(head, extent, close, after, heads[1..], ended)
  {
    hide FirstOf;
    var s := head + after;
    assert s[..|head|] == head && s[|head|..] == after;
    match extent
    case Nothing =>
    case Exactly(n) =>
      if n <= |after| { assert s[|head|..|head| + n] == after[..n] && s[|head| + n..] == after[n..]; }
    case UntilClose =>
      if ended { NothingLeft(s, heads[1..], ended); }
  }

  lemma NothingLeft(s: string, heads: seq<bool>, ended: bool)
    ensures s[|s|..] == "" && ReadAll("", heads, ended) == Reading([], "")
  {}

  lemma HeadRead(line: string, fields: seq<(string, string)>)
    requires OneLine(line) && forall i :: 0 <= i < |fields| ==> PrintableHeader(fields[i])
    ensures ReadHead(HeadText(line, fields)) == (line, TakeAll(NO_FIELDS, fields, UNLIMITED))
  {
    GetLinePrinted(line, HeaderText(fields) + CRLF);
    ScanPrinted(NO_FIELDS, fields, UNLIMITED);
  }

  // ----- status codes -----

  predicate NoBodyStatus(code: nat) { code == 204 || code == 304 || 100 <= code < 200 }

  lemma CodeMeans(n: nat)
    ensures BodilessCode(Decimal(n)) <==> NoBodyStatus(n)
  {
    DecimalReads(n);
    CodesRead();
    ThreeDigits(n);
  }

  lemma CodesRead()
    ensures Number("204") == 204 && Number("304") == 304 && Decimal(204) == "204" && Decimal(304) == "304"
  {
    assert "204"[..2] == "20" && "20"[..1] == "2" && "2"[..0] == "";
    assert "304"[..2] == "30" && "30"[..1] == "3" && "3"[..0] == "";
    assert Decimal(20) == Decimal(2) + "0" && Decimal(30) == Decimal(3) + "0";
    assert Decimal(204) == Decimal(20) + "4" && Decimal(304) == Decimal(30) + "4";
  }

  lemma ThreeDigits(n: nat)
    ensures |Decimal(n)| == 3 && Decimal(n)[0] == '1' <==> 100 <= n < 200
  {
    if n >= 10 {
      var m := n / 10;
      assert Decimal(n) == Decimal(m) + [('0' as int + n % 10) as char];
      if m >= 10 {
        assert Decimal(m) == Decimal(m / 10) + [('0' as int + m % 10) as char];
      }
    }
  }

  lemma CodeOfStatusLine(code: nat, message: string)
    ensures CodeText("HTTP/1.1 " + Decimal(code) + " " + message) == Decimal(code)
  {
    var line, rest := "HTTP/1.1 " + Decimal(code) + " " + message, Decimal(code) + [' '] + message;
    assert line == "HTTP/1.1" + [' '] + rest;
    IndexOfAfter("HTTP/1.1", ' ', rest);
    assert line[9..] == rest;
    IndexOfAfter(Decimal(code), ' ', message);
    assert rest[..|Decimal(code)|] == Decimal(code);
  }

  // ----- fields -----

  /** A header of the application that does not interfere with the framing. */
  predicate Neutral(h: (string, string)) {
    PrintableHeader(h) && Lower(h.0) != "connection" && Lower(h.0) != "content-length"
  }

  lemma {:induction false} NeutralTaken(s: Scan, hs: seq<(string, string)>)
    requires forall i :: 0 <= i < |hs| ==> Neutral(hs[i])
    ensures var r := TakeAll(s, hs, UNLIMITED);
            r.Scanned? && LengthOf(r.scan) == LengthOf(s) && r.scan.close == s.close && r.scan.keep == s.keep
    decreases |hs|
  {
    if hs == [] {
    } else {
      assert Neutral(hs[0]);
      NeutralTaken(TakeHeader(s, Lower(hs[0].0), hs[0].1, UNLIMITED).scan, hs[1..]);
    }
  }

  lemma {:induction false} DecimalReads(n: nat)
    ensures Number(Decimal(n)) == n
  {
    var s := Decimal(n);
    if n < 10 {
      assert s[..0] == "";
    } else {
      DecimalReads(n / 10);
      assert s[..|s| - 1] == Decimal(n / 10);
    }
  }

  /** A length that was printed is the length that is read. */
  lemma LengthReads(n: nat)
    requires n < SIZE_MODULUS
    ensures ParseContentLength(Decimal(n)) == Some(n) && Trimmed(Decimal(n)) && OneLine(Decimal(n))
  {
    DecimalReads(n);
    var s := Decimal(n);
    assert forall i :: 0 <= i < |s| ==> IsDigit(s[i]);
    assert Trim(s) == s;
  }

  lemma NamesLower()
    ensures Lower("Connection") == "connection"
    ensures Lower("Content-Type") == "content-type"
    ensures Lower("Content-Length") == "content-length"
  {}

  lemma {:induction false} NotContained(s: string, sub: string)
    requires sub != "" && Without(s, sub[0])
    ensures !Contains(s, sub)
  {
    if s == "" {
    } else {
      NotContained(s[1..], sub);
    }
  }

  lemma {:induction false} TooLong(s: string, sub: string)
    requires |s| < |sub|
    ensures !Contains(s, sub)
  {
    if s == "" {
    } else {
      TooLong(s[1..], sub);
    }
  }

  lemma WordsLower()
    ensures Lower("close") == "close" && Lower("keep-alive") == "keep-alive" && Lower("Keep-Alive") == "keep-alive"
  {}

  /** The two Connection values that are sent ask for closing, and for keeping the connection. */
  lemma ConnectionWord(close: bool, word: string)
    requires Lower(word) == if close then "close" else "keep-alive"
    ensures Contains(Lower(word), "close") == close && Contains(Lower(word), "keep-alive") == !close
  {
    if close { TooLong(Lower(word), "keep-alive"); } else { NotContained(Lower(word), "close"); }
  }

  function ConnectionTaken(s: Scan, close: bool, value: string): Scan {
    Scan(s.request.(headers := s.request.headers["connection" := value]), close, !close)
  }

  lemma ConnectionFieldTaken(s: Scan, close: bool, word: string)
    requires Lower(word) == if close then "close" else "keep-alive"
    ensures TakeHeader(s, "connection", word, UNLIMITED) == Scanned(ConnectionTaken(s, close, word))
  {
    ConnectionWord(close, word);
  }

  lemma LengthFieldTaken(s: Scan, n: nat)
    requires n < SIZE_MODULUS
    ensures var r := TakeHeader(s, "content-length", Decimal(n), UNLIMITED);
            r.Scanned? && LengthOf(r.scan) == Some(n) && r.scan.close == s.close
  {
    LengthReads(n);
    LookupAfter(map[], "content-length", Decimal(n));
  }

  lemma TypeFieldTaken(s: Scan, value: string)
    ensures var r := TakeHeader(s, "content-type", value, UNLIMITED);
            r.Scanned? && LengthOf(r.scan) == LengthOf(s) && r.scan.close == s.close
  {
    LookupAfter(map[], "content-type", value);
  }

  /** One more field is taken; what remains is read from there. */
  lemma TakenCons(s: Scan, name: string, key: string, value: string, rest: seq<(string, string)>)
    requires Lower(name) == key && TakeHeader(s, key, value, UNLIMITED).Scanned?
    ensures TakeAll(s, [(name, value)] + rest, UNLIMITED) ==
            TakeAll(TakeHeader(s, key, value, UNLIMITED).scan, rest, UNLIMITED)
  {
    assert ([(name, value)] + rest)[1..] == rest;
  }

  lemma ConnectionThen(close: bool, word: string, rest: seq<(string, string)>) returns (s: Scan)
    requires Lower(word) == if close then "close" else "keep-alive"
    ensures TakeAll(NO_FIELDS, [("Connection", word)] + rest, UNLIMITED) == TakeAll(s, rest, UNLIMITED)
    ensures s.close == close && LengthOf(s) == None
  {
    NamesLower();
    ConnectionFieldTaken(NO_FIELDS, close, word);
    s := ConnectionTaken(NO_FIELDS, close, word);
    TakenCons(NO_FIELDS, "Connection", "connection", word, rest);
  }

  lemma TypeThen(s: Scan, value: string, rest: seq<(string, string)>) returns (t: Scan)
    ensures TakeAll(s, [("Content-Type", value)] + rest, UNLIMITED) == TakeAll(t, rest, UNLIMITED)
    ensures t.close == s.close && LengthOf(t) == LengthOf(s)
  {
    NamesLower();
    TypeFieldTaken(s, value);
    t := TakeHeader(s, "content-type", value, UNLIMITED).scan;
    TakenCons(s, "Content-Type", "content-type", value, rest);
  }

  lemma LengthThen(s: Scan, n: nat, rest: seq<(string, string)>) returns (t: Scan)
    requires n < SIZE_MODULUS
    ensures TakeAll(s, [("Content-Length", Decimal(n))] + rest, UNLIMITED) == TakeAll(t, rest, UNLIMITED)
    ensures t.close == s.close && LengthOf(t) == Some(n)
  {
    NamesLower();
    LengthFieldTaken(s, n);
    t := TakeHeader(s, "content-length", Decimal(n), UNLIMITED).scan;
    TakenCons(s, "Content-Length", "content-length", Decimal(n), rest);
  }

  predicate PrintableValue(v: string) { Trimmed(v) && OneLine(v) }

  lemma ConnectionPrintable(close: bool)
    ensures PrintableHeader(("Connection", if close then "close" else "keep-alive"))
  {}

  lemma TypePrintable(v: string)
    requires PrintableValue(v)
    ensures PrintableHeader(("Content-Type", v))
  {}

  lemma LengthPrintable(v: string)
    requires PrintableValue(v)
    ensures PrintableHeader(("Content-Length", v))
  {}

  lemma PrintableCons(h: (string, string), hs: seq<(string, string)>)
    requires PrintableHeader(h) && forall i :: 0 <= i < |hs| ==> PrintableHeader(hs[i])
    ensures forall i :: 0 <= i < |[h] + hs| ==> PrintableHeader(([h] + hs)[i])
  {}
}
